/** `loadBMP_custom`: accept a file that starts with a 54-byte Windows
    bitmap header (BITMAPFILEHEADER followed by BITMAPINFOHEADER) carrying
    the "BM" signature, take the pixel-data offset, the width, the height
    and the image size from it, fill in the offset and the size when the
    file leaves them zero, and read the pixel bytes. The file is a value
    here: `None` stands for a file that could not be opened. */
module Bmp {
  import opened Binary

  /** Every bitmap this loader accepts begins with a header of this size. */
  const HeaderSize: nat := 54

  /** Header offsets of the four fields the loader uses. */
  const DataPosOffset: nat := 0x0A     // bfOffBits
  const WidthOffset: nat := 0x12       // biWidth
  const HeightOffset: nat := 0x16      // biHeight
  const ImageSizeOffset: nat := 0x22   // biSizeImage

  /** What the loader hands to `glTexImage2D`, together with the
      pixel-data offset it works out (and never uses). */
  datatype BmpImage = BmpImage(
    width: U32,
    height: U32,
    imageSize: U32,
    dataPos: U32,
    pixels: seq<Byte>)

  /** The 54 header bytes could be read and start with 'B', 'M'. */
  predicate HasBmpHeader(f: seq<Byte>)
  {
    |f| >= HeaderSize && f[0] == 'B' as int && f[1] == 'M' as int
  }

  /** The image size after the repair for files that leave it zero:
      three bytes (blue, green, red) per pixel, in 32-bit arithmetic. */
  function RepairedImageSize(stored: U32, width: U32, height: U32): U32
  {
    if stored == 0 then MulU32(MulU32(width, height), 3) else stored
  }

  /** The pixel-data offset after the repair for files that leave it zero. */
  function RepairedDataPos(stored: U32): U32
  {
    if stored == 0 then HeaderSize else stored
  }

  /** The result of loading `file`: `None` where the loader returns 0. */
  function DecodeBmp(file: Option<seq<Byte>>): Option<BmpImage>
  {
    if file.None? || !HasBmpHeader(file.value) then None
    else
      var f := file.value;
      var width := Le32(f, WidthOffset);
      var height := Le32(f, HeightOffset);
      var imageSize := RepairedImageSize(Le32(f, ImageSizeOffset), width, height);
      Some(BmpImage(width, height, imageSize, RepairedDataPos(Le32(f, DataPosOffset)),
                    ReadAt(f, HeaderSize, imageSize)))
  }

  /** The loader, step by step: it reads the fields into locals and
      overwrites the two that the file leaves zero. */
  method LoadBMP(file: Option<seq<Byte>>) returns (r: Option<BmpImage>)
    ensures r == DecodeBmp(file)
  {
    if file.None? {
      return None;
    }
    var f := file.value;
    if |f| < HeaderSize || f[0] != 'B' as int || f[1] != 'M' as int {
      return None;
    }
    var dataPos := Le32(f, DataPosOffset);
    var imageSize := Le32(f, ImageSizeOffset);
    var width := Le32(f, WidthOffset);
    var height := Le32(f, HeightOffset);
    if imageSize == 0 {
      imageSize := MulU32(MulU32(width, height), 3);
    }
    if dataPos == 0 {
      dataPos := HeaderSize;
    }
    var pixels := ReadAt(f, HeaderSize, imageSize);
    r := Some(BmpImage(width, height, imageSize, dataPos, pixels));
  }

  /** A file is rejected exactly when it cannot be opened, is shorter than
      the header, or does not start with "BM". */
  lemma RejectedIff(file: Option<seq<Byte>>)
    ensures DecodeBmp(file).None? <==>
      (file.None? || |file.value| < HeaderSize
       || file.value[0] != 'B' as int || file.value[1] != 'M' as int)
  {
  }

  /** An accepted file's width and height are the little-endian words at
      0x12 and 0x16; the offset and size come from the words at 0x0A and
      0x22, kept when nonzero and replaced by the defaults when zero. */
  lemma AcceptedFields(f: seq<Byte>)
    requires HasBmpHeader(f)
    ensures DecodeBmp(Some(f)).Some?
    ensures var img := DecodeBmp(Some(f)).value;
      && img.width == Le32(f, 0x12)
      && img.height == Le32(f, 0x16)
      && (Le32(f, 0x22) != 0 ==> img.imageSize == Le32(f, 0x22))
      && (Le32(f, 0x22) == 0 ==> img.imageSize == (img.width * img.height * 3) % 0x1_0000_0000)
      && (Le32(f, 0x0A) != 0 ==> img.dataPos == Le32(f, 0x0A))
      && (Le32(f, 0x0A) == 0 ==> img.dataPos == 54)
  {
    var width, height := Le32(f, WidthOffset), Le32(f, HeightOffset);
    WrapMul(width as nat * height as nat, 3);
  }

  /** The pixels are the `imageSize` bytes right after the 54-byte header,
      or as many of them as the file holds; `dataPos` plays no part. */
  lemma PixelsFollowHeader(f: seq<Byte>)
    requires HasBmpHeader(f)
    ensures var img := DecodeBmp(Some(f)).value;
      && |img.pixels| == Min(img.imageSize, |f| - 54)
      && img.pixels == f[54..54 + |img.pixels|]
      && (|f| >= 54 + img.imageSize ==> img.pixels == f[54..54 + img.imageSize])
  {
    var img := DecodeBmp(Some(f)).value;
    assert img.pixels == ReadAt(f, HeaderSize, img.imageSize);
  }

  /** Files that differ only in their pixel-data offset field load to the
      same pixels: the offset is never used to position the read. */
  lemma DataPosDoesNotMovePixels(f: seq<Byte>, g: seq<Byte>)
    requires HasBmpHeader(f) && |g| == |f|
    requires forall i :: 0 <= i < |f| && !(DataPosOffset <= i < DataPosOffset + 4) ==> g[i] == f[i]
    ensures DecodeBmp(Some(g)).Some?
    ensures DecodeBmp(Some(g)).value.pixels == DecodeBmp(Some(f)).value.pixels
    ensures DecodeBmp(Some(g)).value.imageSize == DecodeBmp(Some(f)).value.imageSize
  {
    assert g[0] == f[0] && g[1] == f[1];
    assert Le32(g, WidthOffset) == Le32(f, WidthOffset);
    assert Le32(g, HeightOffset) == Le32(f, HeightOffset);
    assert Le32(g, ImageSizeOffset) == Le32(f, ImageSizeOffset);
    assert g[HeaderSize..] == f[HeaderSize..];
  }

  /** A header with the given fields (everything else zero), as a writer of
      the format lays it out, followed by pixel bytes. */
  function BmpFile(width: U32, height: U32, imageSize: U32, dataPos: U32, pixels: seq<Byte>): (r: seq<Byte>)
    ensures |r| == HeaderSize + |pixels|
  {
    Ascii("BM") + (Zeros(8) + FromDataPos(width, height, imageSize, dataPos, pixels))
  }

  /** The file from offset 0x0A on. */
  function FromDataPos(width: U32, height: U32, imageSize: U32, dataPos: U32, pixels: seq<Byte>): (r: seq<Byte>)
    ensures |r| == HeaderSize - DataPosOffset + |pixels|
  {
    EncodeLe32(dataPos) + (Zeros(4) + FromWidth(width, height, imageSize, pixels))
  }

  /** The file from offset 0x12 on. */
  function FromWidth(width: U32, height: U32, imageSize: U32, pixels: seq<Byte>): (r: seq<Byte>)
    ensures |r| == HeaderSize - WidthOffset + |pixels|
  {
    EncodeLe32(width) + (EncodeLe32(height) + (Zeros(8) + FromImageSize(imageSize, pixels)))
  }

  /** The file from offset 0x22 on. */
  function FromImageSize(imageSize: U32, pixels: seq<Byte>): (r: seq<Byte>)
    ensures |r| == HeaderSize - ImageSizeOffset + |pixels|
  {
    EncodeLe32(imageSize) + (Zeros(16) + pixels)
  }

  /** Where a written header puts each field. */
  lemma BmpFileLayout(width: U32, height: U32, imageSize: U32, dataPos: U32, pixels: seq<Byte>)
    ensures var f := BmpFile(width, height, imageSize, dataPos, pixels);
      && HasBmpHeader(f)
      && Le32(f, DataPosOffset) == dataPos && Le32(f, WidthOffset) == width
      && Le32(f, HeightOffset) == height && Le32(f, ImageSizeOffset) == imageSize
      && f[HeaderSize..] == pixels
  {
    var rest := FromDataPos(width, height, imageSize, dataPos, pixels);
    var f := BmpFile(width, height, imageSize, dataPos, pixels);
    FromDataPosLayout(width, height, imageSize, dataPos, pixels);
    forall off: nat | off in {0, 8, 12, 24}
      ensures Le32(f, DataPosOffset + off) == Le32(rest, off)
    {
      Le32Skip(Ascii("BM"), Zeros(8) + rest, 8 + off);
      Le32Skip(Zeros(8), rest, off);
    }
    DropPast(Ascii("BM"), Zeros(8) + rest, 52);
    DropPast(Zeros(8), rest, 44);
  }

  lemma FromDataPosLayout(width: U32, height: U32, imageSize: U32, dataPos: U32, pixels: seq<Byte>)
    ensures var r := FromDataPos(width, height, imageSize, dataPos, pixels);
      && Le32(r, 0) == dataPos && Le32(r, 8) == width && Le32(r, 12) == height
      && Le32(r, 24) == imageSize && r[44..] == pixels
  {
    var rest := FromWidth(width, height, imageSize, pixels);
    Le32Head(dataPos, Zeros(4) + rest);
    FromWidthLayout(width, height, imageSize, pixels);
    forall off: nat | off in {0, 4, 16}
      ensures Le32(EncodeLe32(dataPos) + (Zeros(4) + rest), 8 + off) == Le32(rest, off)
    {
      Le32Skip(EncodeLe32(dataPos), Zeros(4) + rest, 4 + off);
      Le32Skip(Zeros(4), rest, off);
    }
    DropPast(EncodeLe32(dataPos), Zeros(4) + rest, 40);
    DropPast(Zeros(4), rest, 36);
  }

  lemma FromWidthLayout(width: U32, height: U32, imageSize: U32, pixels: seq<Byte>)
    ensures var r := FromWidth(width, height, imageSize, pixels);
      && Le32(r, 0) == width && Le32(r, 4) == height && Le32(r, 16) == imageSize
      && r[36..] == pixels
  {
    var rest := FromImageSize(imageSize, pixels);
    var afterWidth := EncodeLe32(height) + (Zeros(8) + rest);
    Le32Head(width, afterWidth);
    Le32Skip(EncodeLe32(width), afterWidth, 0);
    Le32Head(height, Zeros(8) + rest);
    Le32Skip(EncodeLe32(width), afterWidth, 12);
    Le32Skip(EncodeLe32(height), Zeros(8) + rest, 8);
    Le32Skip(Zeros(8), rest, 0);
    Le32Head(imageSize, Zeros(16) + pixels);
    DropPast(EncodeLe32(width), afterWidth, 32);
    DropPast(EncodeLe32(height), Zeros(8) + rest, 28);
    DropPast(Zeros(8), rest, 20);
    DropPast(EncodeLe32(imageSize), Zeros(16) + pixels, 16);
    DropPast(Zeros(16), pixels, 0);
  }

  /** Loading a written header gives back its fields (with the two repairs
      applied) and the pixels that follow it, up to the image size. */
  lemma DecodeBmpFile(width: U32, height: U32, imageSize: U32, dataPos: U32, pixels: seq<Byte>)
    ensures var size := RepairedImageSize(imageSize, width, height);
      DecodeBmp(Some(BmpFile(width, height, imageSize, dataPos, pixels)))
        == Some(BmpImage(width, height, size, RepairedDataPos(dataPos), pixels[..Min(size, |pixels|)]))
  {
    var f := BmpFile(width, height, imageSize, dataPos, pixels);
    BmpFileLayout(width, height, imageSize, dataPos, pixels);
    var size := RepairedImageSize(imageSize, width, height);
    assert ReadAt(f, HeaderSize, size) == pixels[..Min(size, |pixels|)];
  }
}

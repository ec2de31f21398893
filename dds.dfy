/** `loadDDS`: accept a DirectDraw Surface file whose first four bytes are
    "DDS ", take the height, width, linear size, mipmap count and pixel
    format code from the 124-byte DDS_HEADER that follows, read the
    compressed data into a buffer, map the format code to one of the three
    S3TC formats (or give up), and upload the mipmap chain level by level.
    `None` stands both for a file that could not be opened and for the
    loader's `return 0`; the uploads are returned rather than sent to GL. */
module Dds {
  import opened Binary
  import opened FourCC
  import opened MipChain

  const MagicSize: nat := 4
  /** The size of DDS_HEADER, which follows the magic. */
  const DdsHeaderSize: nat := 124
  /** Where the compressed data starts. */
  const DataStart: nat := MagicSize + DdsHeaderSize

  /** The GL enumerants of EXT_texture_compression_s3tc the loader uses. */
  const GlRgbaS3tcDxt1: U32 := 0x83F1
  const GlRgbaS3tcDxt3: U32 := 0x83F2
  const GlRgbaS3tcDxt5: U32 := 0x83F3

  /** The DDS_HEADER fields the loader reads. */
  datatype DdsHeader = DdsHeader(
    height: U32,       // dwHeight, header offset 8
    width: U32,        // dwWidth, header offset 12
    linearSize: U32,   // dwPitchOrLinearSize, header offset 16
    mipMapCount: U32,  // dwMipMapCount, header offset 24
    fourCC: U32)       // ddspf.dwFourCC, header offset 80

  /** A loaded texture: the header it came from, the GL format and block
      size chosen, the buffer as read and the level uploads. */
  datatype DdsTexture = DdsTexture(
    header: DdsHeader,
    format: U32,
    blockSize: U32,
    bufsize: U32,
    buffer: seq<Byte>,
    uploads: seq<Upload>)

  predicate HasDdsMagic(f: seq<Byte>)
  {
    |f| >= MagicSize && f[..MagicSize] == Ascii("DDS ")
  }

  /** What the loader needs of the file, since it does not check these two
      reads: the four magic bytes, and after a matching magic the whole
      124-byte header. */
  predicate Readable(file: Option<seq<Byte>>)
  {
    file.Some? ==>
      |file.value| >= MagicSize && (HasDdsMagic(file.value) ==> |file.value| >= DataStart)
  }

  /** The header fields, read at header offset `o`, file offset `4 + o`. */
  function ParseHeader(f: seq<Byte>): DdsHeader
    requires |f| >= DataStart
  {
    DdsHeader(Le32(f, MagicSize + 8), Le32(f, MagicSize + 12), Le32(f, MagicSize + 16),
              Le32(f, MagicSize + 24), Le32(f, MagicSize + 80))
  }

  /** The switch on the format code. */
  function FormatOf(fourCC: U32): Option<U32>
  {
    if fourCC == FourCCDxt1 then Some(GlRgbaS3tcDxt1)
    else if fourCC == FourCCDxt3 then Some(GlRgbaS3tcDxt3)
    else if fourCC == FourCCDxt5 then Some(GlRgbaS3tcDxt5)
    else None
  }

  /** Bytes per 4x4 block: DXT1 packs a block in 8 bytes, DXT3 and DXT5 in 16. */
  function BlockSize(format: U32): U32
  {
    if format == GlRgbaS3tcDxt1 then 8 else 16
  }

  /** The buffer size the loader allows for the base level and its mipmaps. */
  function BufSize(mipMapCount: U32, linearSize: U32): U32
  {
    if mipMapCount > 1 then MulU32(linearSize, 2) else linearSize
  }

  /** The result of loading `file`. */
  function DecodeDds(file: Option<seq<Byte>>): Option<DdsTexture>
    requires Readable(file)
  {
    if file.None? || !HasDdsMagic(file.value) then None
    else
      var f := file.value;
      var h := ParseHeader(f);
      var bufsize := BufSize(h.mipMapCount, h.linearSize);
      match FormatOf(h.fourCC)
      case None => None
      case Some(format) =>
        var blockSize := BlockSize(format);
        Some(DdsTexture(h, format, blockSize, bufsize, ReadAt(f, DataStart, bufsize),
                        Chain(h.width, h.height, h.mipMapCount, blockSize)))
  }

  /** The loader, step by step. */
  method LoadDDS(file: Option<seq<Byte>>) returns (r: Option<DdsTexture>)
    requires Readable(file)
    ensures r == DecodeDds(file)
  {
    if file.None? {
      return None;
    }
    var f := file.value;
    if f[..MagicSize] != Ascii("DDS ") {
      return None;
    }
    var height := Le32(f, MagicSize + 8);
    var width := Le32(f, MagicSize + 12);
    var linearSize := Le32(f, MagicSize + 16);
    var mipMapCount := Le32(f, MagicSize + 24);
    var fourCC := Le32(f, MagicSize + 80);
    var bufsize: U32 := if mipMapCount > 1 then MulU32(linearSize, 2) else linearSize;
    var buffer := ReadAt(f, DataStart, bufsize);
    var format: U32;
    if fourCC == FourCCDxt1 {
      format := GlRgbaS3tcDxt1;
    } else if fourCC == FourCCDxt3 {
      format := GlRgbaS3tcDxt3;
    } else if fourCC == FourCCDxt5 {
      format := GlRgbaS3tcDxt5;
    } else {
      return None;
    }
    var blockSize: U32 := if format == GlRgbaS3tcDxt1 then 8 else 16;
    var uploads := Uploads(width, height, mipMapCount, blockSize);
    r := Some(DdsTexture(DdsHeader(height, width, linearSize, mipMapCount, fourCC),
                         format, blockSize, bufsize, buffer, uploads));
  }

  /** A readable file is rejected exactly when it cannot be opened, does not
      start with "DDS ", or names a format other than DXT1, DXT3 and DXT5. */
  lemma RejectedIff(file: Option<seq<Byte>>)
    requires Readable(file)
    ensures DecodeDds(file).None? <==>
      (file.None? || file.value[..4] != Ascii("DDS ")
       || (Le32(file.value, 84) != FourCCDxt1 && Le32(file.value, 84) != FourCCDxt3
           && Le32(file.value, 84) != FourCCDxt5))
  {
  }

  /** An accepted file's fields are the words at file offsets 12, 16, 20,
      28 and 84 (header offsets 8, 12, 16, 24 and 80). */
  lemma HeaderAtFileOffsets(f: seq<Byte>)
    requires Readable(Some(f)) && DecodeDds(Some(f)).Some?
    ensures |f| >= 128
    ensures var h := DecodeDds(Some(f)).value.header;
      h == DdsHeader(Le32(f, 12), Le32(f, 16), Le32(f, 20), Le32(f, 28), Le32(f, 84))
  {
  }

  /** The GL format and the block size depend on the format code alone:
      DXT1, DXT3 and DXT5 map to the matching S3TC enumerant, and the block
      is 8 bytes for DXT1 and 16 bytes otherwise. */
  lemma FormatByFourCC(f: seq<Byte>)
    requires Readable(Some(f)) && DecodeDds(Some(f)).Some?
    ensures var t := DecodeDds(Some(f)).value;
      && (t.header.fourCC == FourCCDxt1 ==> t.format == 0x83F1 && t.blockSize == 8)
      && (t.header.fourCC == FourCCDxt3 ==> t.format == 0x83F2 && t.blockSize == 16)
      && (t.header.fourCC == FourCCDxt5 ==> t.format == 0x83F3 && t.blockSize == 16)
  {
  }

  /** Two accepted files with the same format code get the same format and
      block size, whatever else their headers say. */
  lemma FormatIndependentOfRest(f: seq<Byte>, g: seq<Byte>)
    requires Readable(Some(f)) && DecodeDds(Some(f)).Some?
    requires Readable(Some(g)) && DecodeDds(Some(g)).Some?
    requires Le32(f, 84) == Le32(g, 84)
    ensures DecodeDds(Some(f)).value.format == DecodeDds(Some(g)).value.format
    ensures DecodeDds(Some(f)).value.blockSize == DecodeDds(Some(g)).value.blockSize
  {
  }

  /** The buffer is twice the linear size (in 32-bit arithmetic) when there
      is more than one mipmap level and the linear size otherwise, filled
      from the bytes after the header as far as the file goes. */
  lemma BufferRule(f: seq<Byte>)
    requires Readable(Some(f)) && DecodeDds(Some(f)).Some?
    ensures var t := DecodeDds(Some(f)).value;
      && t.bufsize == (if t.header.mipMapCount > 1 then 2 * t.header.linearSize % 0x1_0000_0000
                       else t.header.linearSize)
      && |t.buffer| == Min(t.bufsize, |f| - 128)
      && t.buffer == f[128..128 + |t.buffer|]
  {
    var t := DecodeDds(Some(f)).value;
    assert t.buffer == ReadAt(f, DataStart, t.bufsize);
  }

  /** The uploads of an accepted file: level k has dimensions
      max(1, width >> k) by max(1, height >> k), its size in blocks times the
      block size, and starts where the levels before it end (modulo 2^32);
      there are min(mipMapCount, levels with a nonzero dimension) of them,
      never more than 32. */
  lemma UploadsOfAccepted(f: seq<Byte>)
    requires Readable(Some(f)) && DecodeDds(Some(f)).Some?
    ensures var t := DecodeDds(Some(f)).value;
      var h := t.header;
      && |t.uploads| == Min(h.mipMapCount, ActiveLevels(h.width, h.height))
      && |t.uploads| <= 32
      && forall k :: 0 <= k < |t.uploads| ==>
           && t.uploads[k].level == k
           && t.uploads[k].width == Max(1, Shr(h.width, k))
           && t.uploads[k].height == Max(1, Shr(h.height, k))
           && t.uploads[k].size == LevelSize(t.uploads[k].width, t.uploads[k].height, t.blockSize)
           && t.uploads[k].offset == PrefixBytes(h.width, h.height, t.blockSize, k) % 0x1_0000_0000
  {
    var t := DecodeDds(Some(f)).value;
    ChainAtMost32Levels(t.header.width, t.header.height, t.header.mipMapCount, t.blockSize);
  }

  /** A file laid out as a writer of the format does: magic, a header with
      the given fields (everything else zero), then the data. */
  function DdsFile(height: U32, width: U32, linearSize: U32, mipMapCount: U32, fourCC: U32,
                   data: seq<Byte>): (r: seq<Byte>)
    ensures |r| == DataStart + |data|
  {
    Ascii("DDS ") + (Zeros(8) + FromHeight(height, width, linearSize, mipMapCount, fourCC, data))
  }

  /** The file from offset 12 (dwHeight) on. */
  function FromHeight(height: U32, width: U32, linearSize: U32, mipMapCount: U32, fourCC: U32,
                      data: seq<Byte>): (r: seq<Byte>)
    ensures |r| == DataStart - 12 + |data|
  {
    EncodeLe32(height) + (EncodeLe32(width) + (EncodeLe32(linearSize)
      + (Zeros(4) + FromMipMapCount(mipMapCount, fourCC, data))))
  }

  /** The file from offset 28 (dwMipMapCount) on. */
  function FromMipMapCount(mipMapCount: U32, fourCC: U32, data: seq<Byte>): (r: seq<Byte>)
    ensures |r| == DataStart - 28 + |data|
  {
    EncodeLe32(mipMapCount) + (Zeros(52) + FromFourCC(fourCC, data))
  }

  /** The file from offset 84 (ddspf.dwFourCC) on. */
  function FromFourCC(fourCC: U32, data: seq<Byte>): (r: seq<Byte>)
    ensures |r| == DataStart - 84 + |data|
  {
    EncodeLe32(fourCC) + (Zeros(40) + data)
  }

  /** Where a written header puts each field. */
  lemma DdsFileLayout(height: U32, width: U32, linearSize: U32, mipMapCount: U32, fourCC: U32,
                      data: seq<Byte>)
    ensures var f := DdsFile(height, width, linearSize, mipMapCount, fourCC, data);
      && HasDdsMagic(f)
      && Le32(f, 12) == height && Le32(f, 16) == width && Le32(f, 20) == linearSize
      && Le32(f, 28) == mipMapCount && Le32(f, 84) == fourCC
      && f[DataStart..] == data
  {
    var f := DdsFile(height, width, linearSize, mipMapCount, fourCC, data);
    var magic := Ascii("DDS ");
    var rest := FromHeight(height, width, linearSize, mipMapCount, fourCC, data);
    assert f == magic + (Zeros(8) + rest);
    assert f[..4] == magic;
    FromHeightLayout(height, width, linearSize, mipMapCount, fourCC, data);
    forall off: nat | off in {0, 4, 8, 16, 72}
      ensures Le32(f, 12 + off) == Le32(rest, off)
    {
      Le32Skip(magic, Zeros(8) + rest, 8 + off);
      Le32Skip(Zeros(8), rest, off);
    }
    DropPast(magic, Zeros(8) + rest, 124);
    DropPast(Zeros(8), rest, 116);
  }

  lemma FromHeightLayout(height: U32, width: U32, linearSize: U32, mipMapCount: U32, fourCC: U32,
                         data: seq<Byte>)
    ensures var r := FromHeight(height, width, linearSize, mipMapCount, fourCC, data);
      && Le32(r, 0) == height && Le32(r, 4) == width && Le32(r, 8) == linearSize
      && Le32(r, 16) == mipMapCount && Le32(r, 72) == fourCC
      && r[116..] == data
  {
    var rest := FromMipMapCount(mipMapCount, fourCC, data);
    var afterLinear := Zeros(4) + rest;
    var afterWidth := EncodeLe32(linearSize) + afterLinear;
    var afterHeight := EncodeLe32(width) + afterWidth;
    Le32Head(height, afterHeight);
    Le32Skip(EncodeLe32(height), afterHeight, 0);
    Le32Head(width, afterWidth);
    Le32Skip(EncodeLe32(height), afterHeight, 4);
    Le32Skip(EncodeLe32(width), afterWidth, 0);
    Le32Head(linearSize, afterLinear);
    FromMipMapCountLayout(mipMapCount, fourCC, data);
    forall off: nat | off in {0, 56}
      ensures Le32(EncodeLe32(height) + afterHeight, 16 + off) == Le32(rest, off)
    {
      Le32Skip(EncodeLe32(height), afterHeight, 12 + off);
      Le32Skip(EncodeLe32(width), afterWidth, 8 + off);
      Le32Skip(EncodeLe32(linearSize), afterLinear, 4 + off);
      Le32Skip(Zeros(4), rest, off);
    }
    DropPast(EncodeLe32(height), afterHeight, 112);
    DropPast(EncodeLe32(width), afterWidth, 108);
    DropPast(EncodeLe32(linearSize), afterLinear, 104);
    DropPast(Zeros(4), rest, 100);
  }

  lemma FromMipMapCountLayout(mipMapCount: U32, fourCC: U32, data: seq<Byte>)
    ensures var r := FromMipMapCount(mipMapCount, fourCC, data);
      && Le32(r, 0) == mipMapCount && Le32(r, 56) == fourCC && r[100..] == data
  {
    var rest := FromFourCC(fourCC, data);
    Le32Head(mipMapCount, Zeros(52) + rest);
    Le32Skip(EncodeLe32(mipMapCount), Zeros(52) + rest, 52);
    Le32Skip(Zeros(52), rest, 0);
    Le32Head(fourCC, Zeros(40) + data);
    DropPast(EncodeLe32(mipMapCount), Zeros(52) + rest, 96);
    DropPast(Zeros(52), rest, 44);
    DropPast(EncodeLe32(fourCC), Zeros(40) + data, 40);
    DropPast(Zeros(40), data, 0);
  }

  /** Loading a written file gives back its header fields and data. */
  lemma DecodeDdsFile(height: U32, width: U32, linearSize: U32, mipMapCount: U32, fourCC: U32,
                      data: seq<Byte>)
    ensures Readable(Some(DdsFile(height, width, linearSize, mipMapCount, fourCC, data)))
    ensures var t := DecodeDds(Some(DdsFile(height, width, linearSize, mipMapCount, fourCC, data)));
      && (t.Some? <==> FormatOf(fourCC).Some?)
      && (t.Some? ==>
            && t.value.header == DdsHeader(height, width, linearSize, mipMapCount, fourCC)
            && t.value.buffer == data[..Min(t.value.bufsize, |data|)])
  {
    var f := DdsFile(height, width, linearSize, mipMapCount, fourCC, data);
    DdsFileLayout(height, width, linearSize, mipMapCount, fourCC, data);
    var bufsize := BufSize(mipMapCount, linearSize);
    assert ReadAt(f, DataStart, bufsize) == data[..Min(bufsize, |data|)];
  }

  /** Twice the linear size does not always cover the mipmap chain. A 4x4
      DXT1 image with three levels, whose linear size of 8 bytes is exactly
      its base level, gets a 16-byte buffer, but its levels take 8 bytes
      each, so the third upload reads bytes 16 to 23, past the buffer. */
  lemma ChainOverrunsBufSize(data: seq<Byte>)
    requires |data| == 16
    ensures var t := DecodeDds(Some(DdsFile(4, 4, 8, 3, FourCCDxt1, data)));
      && t.Some?
      && t.value.bufsize == 16 && |t.value.buffer| == 16
      && |t.value.uploads| == 3
      && t.value.uploads[0].size == t.value.header.linearSize
      && t.value.uploads[2].offset + t.value.uploads[2].size == 24
      && ChainBytes(4, 4, 3, 8) == 24
  {
    DecodeDdsFile(4, 4, 8, 3, FourCCDxt1, data);
    SmallDxt1Chain();
  }

  /** The buffer size the loader evidently means ("including all mipmaps"):
      the bytes of the whole chain it uploads. */
  function ChainBufSize(t: DdsTexture): nat
  {
    ChainBytes(t.header.width, t.header.height, t.header.mipMapCount, t.blockSize)
  }

  /** With a buffer of `ChainBufSize` bytes every upload of an accepted
      file stays inside the buffer, and the last one ends at its end. */
  lemma ChainBufSizeHoldsUploads(f: seq<Byte>)
    requires Readable(Some(f)) && DecodeDds(Some(f)).Some?
    requires ChainBufSize(DecodeDds(Some(f)).value) < Modulus
    ensures var t := DecodeDds(Some(f)).value;
      && (forall k :: 0 <= k < |t.uploads| ==> t.uploads[k].offset + t.uploads[k].size <= ChainBufSize(t))
      && (|t.uploads| > 0 ==>
            t.uploads[|t.uploads| - 1].offset + t.uploads[|t.uploads| - 1].size == ChainBufSize(t))
  {
    var t := DecodeDds(Some(f)).value;
    UploadsWithinChainBytes(t.header.width, t.header.height, t.header.mipMapCount, t.blockSize);
  }
}

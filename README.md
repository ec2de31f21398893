# Texture loading of the OpenGL tutorials, modelled in Dafny

The tutorials' shared code has two texture loaders, in
`common/Texture.cpp`:

- `loadBMP_custom` reads an uncompressed Windows bitmap. It checks the
  54-byte header and its "BM" signature. It takes four little-endian
  fields from the header and repairs the image size and pixel offset when
  they are zero. It then reads the pixel bytes that follow the header.
- `loadDDS` reads a DirectDraw Surface file. It checks the "DDS " magic
  and takes five fields from the 124-byte `DDS_HEADER`. It reads a buffer
  of compressed data and maps the format code to one of the three S3TC
  formats, or rejects the file. Then it uploads the mipmap chain level by
  level, each with a clamped width and height, a size counted in 4x4
  blocks and a running byte offset into the buffer.

`common/Texture.h` defines the three format codes `FOURCC_DXT1/3/5`.

In the model, files are byte sequences. `None` stands for a file that
could not be opened. Each loader gives back what it would pass to GL: the
decoded image, or the list of uploads. It never calls GL. C `unsigned int`
arithmetic is modelled exactly, wrapping modulo 2^32 (`Binary.AddU32`,
`Binary.MulU32`), so no precondition rules overflow out.

Modules:

- `Binary`: bytes, 32-bit values, little-endian reads and writes, and a
  short-read model of `fread`.
- `FourCC`: the constants of `Texture.h`.
- `Bmp`: `loadBMP_custom`.
- `MipChain`: the mipmap loop as a `while` method. It is proved equal to a
  closed-form chain, and the properties are proved about that chain.
- `Dds`: `loadDDS`.

Both loaders exist twice:

- As a function: `Bmp.DecodeBmp`, `Dds.DecodeDds`.
- As a step-by-step method that reassigns its locals the way the C code
  does: `Bmp.LoadBMP`, `Dds.LoadDDS`. Each method is proved equal to its
  function.

The lemmas are stated about the functions.

## Model

| member | source | states |
|---|---|---|
| Bmp.LoadBMP | OpenGL-tutorials/common/Texture.cpp:15-43 | the step-by-step loader, with the size and offset repairs done in place, computes exactly the decoded image (or the rejection) |
| Bmp.RejectedIff | OpenGL-tutorials/common/Texture.cpp:15-26 | a bitmap is rejected exactly when it cannot be opened, is shorter than 54 bytes, or does not begin with 'B','M' |
| Bmp.AcceptedFields | OpenGL-tutorials/common/Texture.cpp:28-37 | width and height are the little-endian words at 0x12 and 0x16; a nonzero size at 0x22 is kept and a zero one becomes width*height*3 mod 2^32; a nonzero offset at 0x0A is kept and a zero one becomes 54 |
| Bmp.PixelsFollowHeader | OpenGL-tutorials/common/Texture.cpp:40-43 | the pixels are the `imageSize` bytes right after the 54-byte header, or as many as the file holds |
| Bmp.DataPosDoesNotMovePixels | OpenGL-tutorials/common/Texture.cpp:28-43 | two files that differ only in the offset field give the same pixels and size: the offset never positions the read |
| Bmp.DecodeBmpFile | OpenGL-tutorials/common/Texture.cpp:22-43 | loading a header written with given fields gives those fields back, with the two repairs, and the pixels that follow up to the image size |
| Binary.DecodeEncodeLe32 | OpenGL-tutorials/common/Texture.cpp:28-31 | reading back a stored 32-bit word gives the word |
| Binary.EncodeDecodeLe32 | OpenGL-tutorials/common/Texture.cpp:85-89 | storing a word that was read reproduces the four bytes it came from, so the little-endian read loses nothing |
| FourCC.Dxt1Spelling | OpenGL-tutorials/common/Texture.h:7 | `FOURCC_DXT1` is the little-endian word spelled "DXT1", both ways round |
| FourCC.Dxt3Spelling | OpenGL-tutorials/common/Texture.h:8 | `FOURCC_DXT3` is the little-endian word spelled "DXT3", both ways round |
| FourCC.Dxt5Spelling | OpenGL-tutorials/common/Texture.h:9 | `FOURCC_DXT5` is the little-endian word spelled "DXT5", both ways round |
| FourCC.CodesShareDxtPrefix | OpenGL-tutorials/common/Texture.h:7-9 | the three codes share their low three bytes "DXT", have high bytes '1', '3', '5' and are pairwise distinct, so the switch cases cannot overlap |
| Dds.LoadDDS | OpenGL-tutorials/common/Texture.cpp:64-146 | the step-by-step loader (magic check, header fields, buffer, format switch, block size, mipmap loop) computes exactly the decoded texture (or the rejection) |
| Dds.RejectedIff | OpenGL-tutorials/common/Texture.cpp:70-80 | a readable file is rejected exactly when it cannot be opened, its first four bytes are not "DDS ", or its format code is none of DXT1, DXT3, DXT5 |
| Dds.HeaderAtFileOffsets | OpenGL-tutorials/common/Texture.cpp:83-89 | height, width, linear size, mipmap count and format code are the words at file offsets 12, 16, 20, 28 and 84 (header offsets 8, 12, 16, 24, 80) |
| Dds.FormatByFourCC | OpenGL-tutorials/common/Texture.cpp:103-126 | DXT1, DXT3 and DXT5 map to GL formats 0x83F1, 0x83F2 and 0x83F3, with block sizes 8, 16 and 16 |
| Dds.FormatIndependentOfRest | OpenGL-tutorials/common/Texture.cpp:103-126 | two accepted files with the same format code get the same format and block size, whatever else their headers hold |
| Dds.BufferRule | OpenGL-tutorials/common/Texture.cpp:94-96 | the buffer size is 2*linearSize mod 2^32 when the mipmap count exceeds 1, and linearSize otherwise; the buffer holds the bytes after the 128-byte prefix, as far as the file goes |
| Dds.UploadsOfAccepted | OpenGL-tutorials/common/Texture.cpp:126-143 | level k has dimensions max(1, width>>k) by max(1, height>>k) and the block-count size, and starts where the earlier levels end (mod 2^32); there are min(mipMapCount, levels with a nonzero dimension) of them, and never more than 32 |
| Dds.DecodeDdsFile | OpenGL-tutorials/common/Texture.cpp:75-117 | loading a file written with given header fields accepts it exactly when its format code is known, and then gives those fields back with the data that follows up to the buffer size |
| Dds.ChainOverrunsBufSize | OpenGL-tutorials/common/Texture.cpp:94-142 | a 4x4 DXT1 file with linear size 8 and three levels gets a 16-byte buffer, but its last upload ends at byte 24 |
| Dds.ChainBufSizeHoldsUploads | OpenGL-tutorials/common/Texture.cpp:93-142 | with a buffer as large as the whole chain (when that fits in 32 bits), every upload lies inside it and the last one ends at its end |
| MipChain.Uploads | OpenGL-tutorials/common/Texture.cpp:127-143 | the loop produces exactly the closed-form chain: level k at max(1, w>>k) by max(1, h>>k), at the running offset |
| MipChain.ShrNonZeroIff | OpenGL-tutorials/common/Texture.cpp:130 | `x >> k` is nonzero exactly when k is less than the bit length of x, which bounds the number of iterations the `width \|\| height` test allows |
| MipChain.ClampThenHalve | OpenGL-tutorials/common/Texture.cpp:132-142 | clamping a level's dimension to 1 and then halving it gives `d >> (k+1)`, so the clamp never changes later levels |
| MipChain.LevelEmittedIff | OpenGL-tutorials/common/Texture.cpp:130 | level k is uploaded exactly when k < mipMapCount and one of `w0>>k`, `h0>>k` is nonzero |
| MipChain.ChainAtMost32Levels | OpenGL-tutorials/common/Texture.cpp:130 | the loop uploads at most 32 levels, whatever the mipmap count |
| MipChain.LevelSizeAtLeastBlock | OpenGL-tutorials/common/Texture.cpp:137 | when nothing wraps, a level's size is ((w+3)/4)*((h+3)/4)*blockSize, and that is at least blockSize |
| MipChain.LevelSizeWrapsToZero | OpenGL-tutorials/common/Texture.cpp:137 | a width of 2^32-3 makes `width+3` wrap, and the level is sized as 0 bytes |
| MipChain.OffsetIsRunningSum | OpenGL-tutorials/common/Texture.cpp:127-140 | a level's offset is the sum of the earlier levels' sizes mod 2^32, and the next offset is this plus this level's size in 32-bit arithmetic |
| MipChain.UploadsWithinChainBytes | OpenGL-tutorials/common/Texture.cpp:130-142 | when the chain's total fits in 32 bits, every upload ends within the total and the last one ends exactly at it |
| MipChain.SmallDxt1Chain | OpenGL-tutorials/common/Texture.cpp:130-142 | a 4x4 DXT1 image with three levels uploads 4x4, 2x2 and 1x1 levels of 8 bytes each at offsets 0, 8 and 16, which is 24 bytes in all |

## Left out

- File I/O (`fopen`, `fread`, `fclose`), allocation (`new`, `malloc`, `free`) and the GL calls (`glGenTextures`, `glBindTexture`, `glTexImage2D`, `glTexParameteri`, `glCompressedTexImage2D`). The file is a byte sequence and the uploads are returned values, so the GL texture id is not modelled.
- The console messages on the bitmap error paths. They are output only.
- The file handle the bitmap loader does not close on its error paths. It is a resource leak with no effect on the result.
- The unused `components` variable of `loadDDS`. It has no effect.
- The uninitialised tail of a buffer after a short data read. The model delivers only the bytes actually read, because the C code leaves the rest indeterminate.
- Dds.LoadDDS, Dds.DecodeDds: these require `Dds.Readable`, meaning the four magic bytes and, after a matching magic, the whole 124-byte header are present. The C code does not check these two reads, and its result on a shorter file depends on indeterminate memory.
- MipChain.LevelSizeAtLeastBlock: the bound holds only when the size computation does not wrap. `MipChain.LevelSizeWrapsToZero` shows that it fails otherwise.
- Byte order: the `*(unsigned int*)` reads are modelled as little-endian, the byte order of the hosts the tutorials target. The misaligned access and the signed `int` reads in the bitmap loader give the same 32 bits, so they are not modelled separately.
- The rest of `common/` (quaternion utilities, camera controls, shader loading, text rendering). It is floating-point arithmetic, input polling or GL and file glue, with no exact behaviour to state.

## Findings

| source | as written | input that shows it | evidently intended | confidence | as-written member | corrected member |
|---|---|---|---|---|---|---|
| OpenGL-tutorials/common/Texture.cpp:94 | the buffer "including all mipmaps" is sized as twice the linear size whenever there is more than one level | a 4x4 DXT1 file with linear size 8 and mipmap count 3: the buffer is 16 bytes, but the three 8-byte levels are uploaded from offsets 0, 8 and 16, so the last one reads bytes 16..23 past the buffer | a buffer as large as the whole mipmap chain uploaded at lines 130-142 | not executed | Dds.ChainOverrunsBufSize | Dds.ChainBufSizeHoldsUploads |

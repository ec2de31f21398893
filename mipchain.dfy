/** The mipmap loop of `loadDDS`: starting from the base width and height
    it uploads one level per iteration, clamping each dimension to at least
    one texel, sizing the level in 4x4 blocks, advancing a byte offset into
    the buffer and halving both dimensions, for as long as the level number
    is below the file's mipmap count and some dimension is still nonzero.
    All of it is C `unsigned int` arithmetic, which wraps modulo 2^32. */
module MipChain {
  import opened Binary

  /** One `glCompressedTexImage2D` call: the level number, its dimensions,
      its byte count and where in the buffer its bytes start. */
  datatype Upload = Upload(level: nat, width: U32, height: U32, size: U32, offset: U32)

  /** `x >> k`, the value after `k` halvings. */
  function Shr(x: nat, k: nat): (r: nat)
    ensures r <= x
  {
    if k == 0 then x else Shr(x, k - 1) / 2
  }

  /** The number of binary digits of `x`: how many halvings reach zero. */
  function BitLength(x: nat): nat
  {
    if x == 0 then 0 else 1 + BitLength(x / 2)
  }

  /** The `if (width < 1) width = 1;` clamp. */
  function ClampToOne(x: U32): (r: U32)
    ensures r >= 1 && (x >= 1 ==> r == x)
  {
    if x < 1 then 1 else x
  }

  /** The bytes of one level: `((w+3)/4) * ((h+3)/4) * blockSize`, each
      operation wrapping as the C code's `unsigned int` does. */
  function LevelSize(w: U32, h: U32, blockSize: U32): U32
  {
    MulU32(MulU32(AddU32(w, 3) / 4, AddU32(h, 3) / 4), blockSize)
  }

  /** The dimension of level `k` for a base dimension `d`. */
  function LevelDim(d: U32, k: nat): (r: U32)
  {
    ClampToOne(Shr(d, k))
  }

  function SizeAt(w0: U32, h0: U32, blockSize: U32, k: nat): U32
  {
    LevelSize(LevelDim(w0, k), LevelDim(h0, k), blockSize)
  }

  /** The exact (unwrapped) sum of the sizes of levels 0 .. k-1. */
  function PrefixBytes(w0: U32, h0: U32, blockSize: U32, k: nat): nat
  {
    if k == 0 then 0 else PrefixBytes(w0, h0, blockSize, k - 1) + SizeAt(w0, h0, blockSize, k - 1)
  }

  /** Level `k` in closed form. */
  function Level(w0: U32, h0: U32, blockSize: U32, k: nat): Upload
  {
    Upload(k, LevelDim(w0, k), LevelDim(h0, k), SizeAt(w0, h0, blockSize, k),
           Wrap(PrefixBytes(w0, h0, blockSize, k)))
  }

  /** How many levels have a nonzero unclamped dimension. */
  function ActiveLevels(w0: U32, h0: U32): nat
  {
    Max(BitLength(w0), BitLength(h0))
  }

  function LevelCount(w0: U32, h0: U32, mipMapCount: U32): nat
  {
    Min(mipMapCount, ActiveLevels(w0, h0))
  }

  /** The uploads the loop performs, in closed form. */
  function Chain(w0: U32, h0: U32, mipMapCount: U32, blockSize: U32): seq<Upload>
  {
    seq(LevelCount(w0, h0, mipMapCount), k requires 0 <= k => Level(w0, h0, blockSize, k))
  }

  /** The loop as the C code runs it. */
  method Uploads(width0: U32, height0: U32, mipMapCount: U32, blockSize: U32)
    returns (uploads: seq<Upload>)
    ensures uploads == Chain(width0, height0, mipMapCount, blockSize)
  {
    var width, height := width0, height0;
    var offset: U32 := 0;
    var level: U32 := 0;
    uploads := [];
    while level < mipMapCount && (width != 0 || height != 0)
      invariant level <= LevelCount(width0, height0, mipMapCount)
      invariant width == Shr(width0, level) && height == Shr(height0, level)
      invariant offset == Wrap(PrefixBytes(width0, height0, blockSize, level))
      invariant |uploads| == level
      invariant forall j :: 0 <= j < level ==> uploads[j] == Level(width0, height0, blockSize, j)
      decreases LevelCount(width0, height0, mipMapCount) - level
    {
      ShrNonZeroIff(width0, level);
      ShrNonZeroIff(height0, level);
      ClampThenHalve(width0, level);
      ClampThenHalve(height0, level);
      if width < 1 {
        width := 1;
      }
      if height < 1 {
        height := 1;
      }
      var size := LevelSize(width, height, blockSize);
      var next := Upload(level, width, height, size, offset);
      assert next == Level(width0, height0, blockSize, level);
      OffsetIsRunningSum(width0, height0, blockSize, level);
      uploads := uploads + [next];
      offset := AddU32(offset, size);
      width := width / 2;
      height := height / 2;
      level := level + 1;
    }
    ShrNonZeroIff(width0, level);
    ShrNonZeroIff(height0, level);
    assert level == LevelCount(width0, height0, mipMapCount);
  }

  lemma {:induction false} ShrOfHalf(x: nat, k: nat)
    ensures Shr(x, k + 1) == Shr(x / 2, k)
  {
    if k > 0 {
      ShrOfHalf(x, k - 1);
    }
  }

  /** `x >> k` is nonzero exactly for the first `BitLength(x)` values of k. */
  lemma {:induction false} ShrNonZeroIff(x: nat, k: nat)
    ensures Shr(x, k) != 0 <==> k < BitLength(x)
  {
    if k > 0 && x > 0 {
      ShrOfHalf(x, k - 1);
      ShrNonZeroIff(x / 2, k - 1);
    } else if k > 0 {
      ShrZero(k);
    }
  }

  lemma {:induction false} ShrZero(k: nat)
    ensures Shr(0, k) == 0
  {
    if k > 0 {
      ShrZero(k - 1);
    }
  }

  /** The loop body's clamp-then-halve gives the next level's unclamped
      dimension, `d >> (k + 1)`, whether or not the clamp fired. */
  lemma ClampThenHalve(d: U32, k: nat)
    ensures LevelDim(d, k) / 2 == Shr(d, k + 1)
  {
  }

  /** The loop emits a level exactly when its number is below the mipmap
      count and some unclamped dimension is nonzero. */
  lemma LevelEmittedIff(w0: U32, h0: U32, mipMapCount: U32, blockSize: U32, k: nat)
    ensures k < |Chain(w0, h0, mipMapCount, blockSize)| <==>
      (k < mipMapCount && (Shr(w0, k) != 0 || Shr(h0, k) != 0))
  {
    ShrNonZeroIff(w0, k);
    ShrNonZeroIff(h0, k);
  }

  lemma {:induction false} BitLengthBound(x: nat, n: nat)
    requires x < Pow2(n)
    ensures BitLength(x) <= n
  {
    if x > 0 {
      BitLengthBound(x / 2, n - 1);
    }
  }

  function Pow2(n: nat): (r: nat)
    ensures r >= 1
  {
    if n == 0 then 1 else 2 * Pow2(n - 1)
  }

  /** The loop ends: no chain of 32-bit dimensions has more than 32 levels,
      whatever the mipmap count says. */
  lemma ChainAtMost32Levels(w0: U32, h0: U32, mipMapCount: U32, blockSize: U32)
    ensures |Chain(w0, h0, mipMapCount, blockSize)| <= 32
  {
    assert Pow2(32) == Modulus by {
      assert Pow2(8) == 256;
      assert Pow2(16) == 256 * 256 by { Pow2Add(8, 8); }
      Pow2Add(16, 16);
    }
    BitLengthBound(w0, 32);
    BitLengthBound(h0, 32);
  }

  lemma {:induction false} Pow2Add(a: nat, b: nat)
    ensures Pow2(a + b) == Pow2(a) * Pow2(b)
  {
    if a > 0 {
      Pow2Add(a - 1, b);
    }
  }

  /** Every level has at least one texel each way and occupies at least
      `blockSize` bytes, as long as its size computation does not wrap. */
  lemma LevelSizeAtLeastBlock(w: U32, h: U32, blockSize: U32)
    requires w >= 1 && h >= 1
    requires w + 3 < Modulus && h + 3 < Modulus
    requires (w + 3) / 4 * ((h + 3) / 4) * blockSize < Modulus
    ensures LevelSize(w, h, blockSize) == (w + 3) / 4 * ((h + 3) / 4) * blockSize
    ensures LevelSize(w, h, blockSize) >= blockSize
  {
    var a, b := (w + 3) / 4, (h + 3) / 4;
    WrapSmall(w + 3);
    WrapSmall(h + 3);
    MulAtLeast(a, b);
    MulAtLeast(blockSize, a * b);
    if blockSize > 0 {
      MulAtLeast(a * b, blockSize);
      WrapSmall(a * b);
    }
    WrapSmall(a * b * blockSize);
  }

  lemma MulAtLeast(x: nat, y: nat)
    requires y >= 1
    ensures x * y >= x && y * x >= x
  {
  }

  /** Without that proviso the bound fails: a width of 2^32 - 3 makes
      `width + 3` wrap to 0, so the level is sized as zero bytes. */
  lemma LevelSizeWrapsToZero()
    ensures LevelSize(0xFFFF_FFFD, 1, 8) == 0
  {
  }

  /** Level k's offset is the sum of the sizes of levels 0 .. k-1, modulo 2^32,
      and the next level's offset is this one's plus this one's size, as the
      loop's `offset += size` computes it. */
  lemma OffsetIsRunningSum(w0: U32, h0: U32, blockSize: U32, k: nat)
    ensures Level(w0, h0, blockSize, k).offset == PrefixBytes(w0, h0, blockSize, k) % Modulus
    ensures Level(w0, h0, blockSize, k + 1).offset
      == AddU32(Level(w0, h0, blockSize, k).offset, Level(w0, h0, blockSize, k).size)
  {
    WrapAdd(PrefixBytes(w0, h0, blockSize, k), SizeAt(w0, h0, blockSize, k));
  }

  /** The number of bytes the whole chain occupies. */
  function ChainBytes(w0: U32, h0: U32, mipMapCount: U32, blockSize: U32): nat
  {
    PrefixBytes(w0, h0, blockSize, LevelCount(w0, h0, mipMapCount))
  }

  lemma {:induction false} PrefixBytesMonotone(w0: U32, h0: U32, blockSize: U32, j: nat, k: nat)
    requires j <= k
    ensures PrefixBytes(w0, h0, blockSize, j) <= PrefixBytes(w0, h0, blockSize, k)
  {
    if j < k {
      PrefixBytesMonotone(w0, h0, blockSize, j, k - 1);
    }
  }

  /** A buffer of `ChainBytes` bytes holds every upload, and no smaller one
      does: the last level ends exactly at `ChainBytes`. This holds whenever
      the total fits in 32 bits, so that no offset wraps. */
  lemma UploadsWithinChainBytes(w0: U32, h0: U32, mipMapCount: U32, blockSize: U32)
    requires ChainBytes(w0, h0, mipMapCount, blockSize) < Modulus
    ensures var c := Chain(w0, h0, mipMapCount, blockSize);
      forall k :: 0 <= k < |c| ==> c[k].offset + c[k].size <= ChainBytes(w0, h0, mipMapCount, blockSize)
    ensures var c := Chain(w0, h0, mipMapCount, blockSize);
      |c| > 0 ==> c[|c| - 1].offset + c[|c| - 1].size == ChainBytes(w0, h0, mipMapCount, blockSize)
  {
    var c := Chain(w0, h0, mipMapCount, blockSize);
    forall k | 0 <= k < |c|
      ensures c[k].offset + c[k].size <= ChainBytes(w0, h0, mipMapCount, blockSize)
    {
      UploadEnd(w0, h0, mipMapCount, blockSize, k);
    }
    if |c| > 0 {
      UploadEnd(w0, h0, mipMapCount, blockSize, |c| - 1);
    }
  }

  /** Where one upload ends, when no offset wraps. */
  lemma UploadEnd(w0: U32, h0: U32, mipMapCount: U32, blockSize: U32, k: nat)
    requires ChainBytes(w0, h0, mipMapCount, blockSize) < Modulus
    requires k < LevelCount(w0, h0, mipMapCount)
    ensures Level(w0, h0, blockSize, k).offset + Level(w0, h0, blockSize, k).size
      == PrefixBytes(w0, h0, blockSize, k + 1)
    ensures PrefixBytes(w0, h0, blockSize, k + 1) <= ChainBytes(w0, h0, mipMapCount, blockSize)
  {
    PrefixBytesMonotone(w0, h0, blockSize, k + 1, LevelCount(w0, h0, mipMapCount));
    PrefixBytesMonotone(w0, h0, blockSize, k, k + 1);
    WrapSmall(PrefixBytes(w0, h0, blockSize, k));
  }


  /** The chain of a 4x4 image with 8-byte blocks and three levels: every
      level is a single block, 4x4, 2x2 and 1x1. */
  lemma SmallDxt1Chain()
    ensures Chain(4, 4, 3, 8)
      == [Upload(0, 4, 4, 8, 0), Upload(1, 2, 2, 8, 8), Upload(2, 1, 1, 8, 16)]
    ensures ChainBytes(4, 4, 3, 8) == 24
  {
    assert BitLength(4) == 3;
    assert LevelCount(4, 4, 3) == 3;
    assert Level(4, 4, 8, 0) == Upload(0, 4, 4, 8, 0);
    assert Level(4, 4, 8, 1) == Upload(1, 2, 2, 8, 8);
    assert Level(4, 4, 8, 2) == Upload(2, 1, 1, 8, 16);
    assert PrefixBytes(4, 4, 8, 3) == 24;
  }
}

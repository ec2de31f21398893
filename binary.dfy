/** Bytes, C `unsigned int` values and the little-endian 32-bit reads that
    both texture loaders perform with `*(unsigned int*)&header[off]`.
    The loaders run on a little-endian host, so such a read yields the four
    bytes at `off` taken least significant first. */
module Binary {

  datatype Option<T> = None | Some(value: T)

  /** One byte of a file (`unsigned char`). */
  type Byte = b: nat | b < 256

  const Modulus: nat := 0x1_0000_0000

  /** A C `unsigned int`: 32 bits, arithmetic wraps modulo 2^32. */
  type U32 = x: nat | x < 0x1_0000_0000

  /** The value a C `unsigned int` holds after an addition or
      multiplication whose mathematical result is `x`. */
  function Wrap(x: nat): U32
  {
    x % Modulus
  }

  /** C `unsigned int` addition and multiplication. */
  function AddU32(a: U32, b: U32): U32
  {
    Wrap(a + b)
  }

  function MulU32(a: U32, b: U32): U32
  {
    Wrap(a * b)
  }

  lemma WrapSmall(x: nat)
    requires x < Modulus
    ensures Wrap(x) == x
  {
  }

  /** Wrapping an intermediate product changes nothing: C evaluates
      `a * b * c` wrapping after each multiplication. */
  lemma WrapMul(a: nat, b: nat)
    ensures Wrap(Wrap(a) * b) == Wrap(a * b)
  {
    var q := a / Modulus;
    assert a == q * Modulus + Wrap(a);
    assert a * b == (q * b) * Modulus + Wrap(a) * b;
  }

  /** Wrapping an intermediate sum changes nothing: `offset += size`
      applied to a wrapped running total gives the wrapped exact total. */
  lemma WrapAdd(a: nat, b: nat)
    ensures Wrap(Wrap(a) + b) == Wrap(a + b)
  {
    var q := a / Modulus;
    assert a == q * Modulus + Wrap(a);
  }

  function Min(a: nat, b: nat): (r: nat)
    ensures r <= a && r <= b && (r == a || r == b)
  {
    if a <= b then a else b
  }

  function Max(a: nat, b: nat): (r: nat)
    ensures r >= a && r >= b && (r == a || r == b)
  {
    if a <= b then b else a
  }

  /** The 32-bit little-endian value stored at `s[off..off + 4]`. */
  function Le32(s: seq<Byte>, off: nat): U32
    requires off + 4 <= |s|
  {
    (s[off] as nat) + 256 * (s[off + 1] as nat) + 65536 * (s[off + 2] as nat) + 16777216 * (s[off + 3] as nat)
  }

  /** The four bytes a little-endian host stores for `x`, least significant
      first. */
  function EncodeLe32(x: U32): (r: seq<Byte>)
    ensures |r| == 4
  {
    [x % 256, x / 256 % 256, x / 256 / 256 % 256, x / 256 / 256 / 256]
  }

  /** Division by 256 of `lo + 256 * hi` with `lo` a byte. */
  lemma Split256(v: nat, lo: nat, hi: nat)
    requires v == lo + 256 * hi && lo < 256
    ensures v % 256 == lo && v / 256 == hi
  {
  }

  /** Reading back what was stored gives the stored value. */
  lemma DecodeEncodeLe32(x: U32)
    ensures Le32(EncodeLe32(x), 0) == x
  {
    var q0 := x / 256;
    var q1 := q0 / 256;
    assert x == x % 256 + 256 * q0;
    assert q0 == q0 % 256 + 256 * q1;
    assert q1 == q1 % 256 + 256 * (q1 / 256);
  }

  /** A word stored at the front of a sequence reads back. */
  lemma Le32Head(x: U32, rest: seq<Byte>)
    ensures Le32(EncodeLe32(x) + rest, 0) == x
  {
    DecodeEncodeLe32(x);
  }

  /** A word read past a prefix is read from what follows the prefix. */
  lemma Le32Skip(prefix: seq<Byte>, s: seq<Byte>, off: nat)
    requires off + 4 <= |s|
    ensures Le32(prefix + s, |prefix| + off) == Le32(s, off)
  {
  }

  /** Dropping a prefix and then `j` more elements of what follows. */
  lemma DropPast(prefix: seq<Byte>, s: seq<Byte>, j: nat)
    requires j <= |s|
    ensures (prefix + s)[|prefix| + j..] == s[j..]
  {
  }

  /** Storing a value that was read reproduces the four bytes it came from,
      so `Le32` loses nothing. */
  lemma EncodeDecodeLe32(s: seq<Byte>, off: nat)
    requires off + 4 <= |s|
    ensures EncodeLe32(Le32(s, off)) == s[off..off + 4]
  {
    var v := Le32(s, off);
    var b0, b1, b2, b3: nat := s[off], s[off + 1], s[off + 2], s[off + 3];
    Split256(v, b0, b1 + 256 * b2 + 65536 * b3);
    Split256(v / 256, b1, b2 + 256 * b3);
    Split256(v / 256 / 256, b2, b3);
  }

  /** The bytes of an ASCII string. */
  function Ascii(s: string): (r: seq<Byte>)
    requires forall i :: 0 <= i < |s| ==> s[i] as int < 256
    ensures |r| == |s|
    ensures forall i :: 0 <= i < |s| ==> r[i] == s[i] as int
  {
    if s == [] then [] else [s[0] as int as Byte] + Ascii(s[1..])
  }

  /** `n` zero bytes. */
  function Zeros(n: nat): (r: seq<Byte>)
    ensures |r| == n && forall i :: 0 <= i < n ==> r[i] == 0
  {
    seq(n, _ => 0)
  }

  /** The bytes a C `fread(buf, 1, n, f)` delivers when the file position is
      `pos`: at most `n`, fewer when the file ends first. */
  function ReadAt(file: seq<Byte>, pos: nat, n: nat): (r: seq<Byte>)
    ensures |r| == if pos >= |file| then 0 else Min(n, |file| - pos)
    ensures forall i :: 0 <= i < |r| ==> r[i] == file[pos + i]
  {
    if pos >= |file| then [] else file[pos..pos + Min(n, |file| - pos)]
  }
}

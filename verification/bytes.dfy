/** Java integer widths and the little-endian decoding done through
    `java.nio.ByteBuffer` (Helper.java, Volume.java). */
module Bytes {

  /** One octet of the disk image. */
  type Byte = b: int | 0 <= b < 256


  predicate IsInt16(x: int) { -0x8000 <= x < 0x8000 }
  predicate IsInt32(x: int) { -0x8000_0000 <= x < 0x8000_0000 }
  predicate IsInt64(x: int) { -0x8000_0000_0000_0000 <= x < 0x8000_0000_0000_0000 }

  /** An unsigned 16-bit pattern read as a Java `short`. */
  function SignExtend16(u: int): (r: int)
    requires 0 <= u < 0x1_0000
    ensures IsInt16(r) && (r == u || r == u - 0x1_0000)
  {
    if u < 0x8000 then u else u - 0x1_0000
  }

  /** An unsigned 32-bit pattern read as a Java `int`. */
  function Signed32(u: int): (r: int)
    requires 0 <= u < 0x1_0000_0000
    ensures IsInt32(r) && (r == u || r == u - 0x1_0000_0000)
  {
    if u < 0x8000_0000 then u else u - 0x1_0000_0000
  }

  /** Reading a 32-bit pattern as an int is Java's narrowing of that pattern. */
  lemma Signed32IsNarrowing(u: int)
    requires 0 <= u < 0x1_0000_0000
    ensures Signed32(u) == ToInt32(u) && Signed32(u) % 0x1_0000_0000 == u
  {
  }

  /** Java's narrowing to `int`: the low 32 bits, read as two's complement. */
  function ToInt32(x: int): (r: int)
    ensures IsInt32(r)
    ensures IsInt32(x) ==> r == x
    ensures r % 0x1_0000_0000 == x % 0x1_0000_0000
  {
    var m := x % 0x1_0000_0000;
    if m < 0x8000_0000 then m else m - 0x1_0000_0000
  }

  /** A Java `byte`: the octet as a signed value. */
  function SignedByte(b: Byte): (r: int)
    ensures -128 <= r < 128 && r % 256 == b
    ensures b < 128 <==> r == b
  {
    if b < 128 then b else b - 256
  }

  /** `(char) b` for a Java `byte` b: sign extension to 16 bits, so the
      octets 128..255 become the code units 0xFF80..0xFFFF. */
  function Widen(b: Byte): (c: char)
    ensures (c as int) % 256 == b
    ensures b < 128 <==> c as int == b
  {
    if b < 128 then b as char else (b + 0xFF00) as char
  }

  /** Java long division `a / b` for b > 0: the quotient is truncated toward zero. */
  function JavaDiv(a: int, b: int): int
    requires b > 0
  {
    if a >= 0 then a / b else -((-a) / b)
  }

  /** The unsigned value of two little-endian octets. */
  function U16(b0: int, b1: int): int { b0 + 256 * b1 }

  /** The unsigned value of four little-endian octets. */
  function U32(b0: int, b1: int, b2: int, b3: int): int
  {
    b0 + 256 * b1 + 0x1_0000 * b2 + 0x100_0000 * b3
  }

  /** Byte k of the image, or 0 where the image has no byte k. */
  function At(img: seq<Byte>, k: int): Byte
  {
    if 0 <= k < |img| then img[k] else 0
  }

  /** Volume.getBytes: a zero-filled array of `length` bytes, into which
      `RandomAccessFile.read` copies what the image holds from `start` on.
      A negative `start` makes `seek` throw; the exception is caught and the
      array stays all zero. */
  function GetBytes(img: seq<Byte>, start: int, length: int): (r: seq<Byte>)
    requires 0 <= length
    ensures |r| == length
    ensures forall i :: 0 <= i < length ==> r[i] == (if start < 0 then 0 else At(img, start + i))
  {
    if start < 0 then seq<Byte>(length, i => 0) else seq<Byte>(length, i => At(img, start + i))
  }

  /** Inside the image, getBytes is exactly a slice of it. */
  lemma GetBytesSlice(img: seq<Byte>, start: int, length: int)
    requires 0 <= start && 0 <= length && start + length <= |img|
    ensures GetBytes(img, start, length) == img[start..start + length]
  {
    var r := GetBytes(img, start, length);
    forall i | 0 <= i < length
      ensures r[i] == img[start..start + length][i]
    {
    }
  }

  /** Past the end of the image (or before its start) every byte is 0. */
  lemma GetBytesOutside(img: seq<Byte>, start: int, length: int)
    requires 0 <= length && (start < 0 || start >= |img|)
    ensures GetBytes(img, start, length) == seq(length, i => 0)
  {
    var r := GetBytes(img, start, length);
    forall i | 0 <= i < length
      ensures r[i] == 0
    {
    }
  }

  /** ByteBuffer.getShort at absolute index `off` of a little-endian buffer. */
  function I16At(b: seq<Byte>, off: int): (r: int)
    requires 0 <= off && off + 2 <= |b|
    ensures IsInt16(r)
  {
    SignExtend16(U16(b[off], b[off + 1]))
  }

  /** ByteBuffer.getInt at absolute index `off` of a little-endian buffer. */
  function I32At(b: seq<Byte>, off: int): (r: int)
    requires 0 <= off && off + 4 <= |b|
    ensures IsInt32(r)
  {
    Signed32(U32(b[off], b[off + 1], b[off + 2], b[off + 3]))
  }

  /** The short at absolute image offset `off` (zero bytes past the end). */
  function ImageI16(img: seq<Byte>, off: int): int
  {
    SignExtend16(U16(At(img, off), At(img, off + 1)))
  }

  /** The int at absolute image offset `off` (zero bytes past the end). */
  function ImageI32(img: seq<Byte>, off: int): int
  {
    Signed32(U32(At(img, off), At(img, off + 1), At(img, off + 2), At(img, off + 3)))
  }

  /** A short read out of a getBytes buffer is the short at the matching image offset. */
  lemma BufferI16(img: seq<Byte>, start: int, length: int, off: int)
    requires 0 <= length && 0 <= off && off + 2 <= length
    ensures I16At(GetBytes(img, start, length), off) == (if start < 0 then 0 else ImageI16(img, start + off))
  {
    var b := GetBytes(img, start, length);
    assert b[off] == (if start < 0 then 0 else At(img, start + off));
    assert b[off + 1] == (if start < 0 then 0 else At(img, start + off + 1));
  }

  /** An int read out of a getBytes buffer is the int at the matching image offset. */
  lemma BufferI32(img: seq<Byte>, start: int, length: int, off: int)
    requires 0 <= length && 0 <= off && off + 4 <= length
    ensures I32At(GetBytes(img, start, length), off) == (if start < 0 then 0 else ImageI32(img, start + off))
  {
    var b := GetBytes(img, start, length);
    assert b[off] == (if start < 0 then 0 else At(img, start + off));
    assert b[off + 1] == (if start < 0 then 0 else At(img, start + off + 1));
    assert b[off + 2] == (if start < 0 then 0 else At(img, start + off + 2));
    assert b[off + 3] == (if start < 0 then 0 else At(img, start + off + 3));
  }

  /** Helper.toLong. It reads only the first two bytes, as a little-endian
      `short`, and sign-extends them; the mask `0xFFFFFFFF` is the int -1 and
      changes nothing. */
  function ToLong(bs: seq<Byte>): (r: int)
    requires |bs| >= 2
    ensures IsInt16(r)
    ensures bs[1] < 128 ==> r == U16(bs[0], bs[1])
    ensures bs[1] >= 128 ==> r == U16(bs[0], bs[1]) - 0x1_0000
  {
    I16At(bs, 0)
  }

  /** The little-endian encoding of an unsigned 32-bit value: the layout of
      every 4-byte field of the on-disk format. */
  function Le32(x: int): (r: seq<Byte>)
    requires 0 <= x < 0x1_0000_0000
    ensures |r| == 4
  {
    [x % 256, (x / 256) % 256, ((x / 256) / 256) % 256, ((x / 256) / 256) / 256]
  }

  /** A proper 32-bit read (ByteBuffer.getInt) recovers the encoded value. */
  lemma I32OfLe32(x: int)
    requires 0 <= x < 0x1_0000_0000
    ensures I32At(Le32(x), 0) == ToInt32(x)
  {
    var q1 := x / 256;
    var q2 := q1 / 256;
    assert x == 256 * q1 + x % 256;
    assert q1 == 256 * q2 + q1 % 256;
    assert q2 == 256 * (q2 / 256) + q2 % 256;
    Signed32IsNarrowing(x);
  }

  /** toLong of an encoded 32-bit field yields its low 16 bits, sign-extended. */
  lemma ToLongOfLe32(x: int)
    requires 0 <= x < 0x1_0000_0000
    ensures ToLong(Le32(x)) == SignExtend16(x % 0x1_0000)
  {
    var q1 := x / 256;
    var q2 := q1 / 256;
    assert x == 256 * q1 + x % 256;
    assert q1 == 256 * q2 + q1 % 256;
    assert x == 0x1_0000 * q2 + (x % 256 + 256 * (q1 % 256));
    ModOfSplit16(x, q2, x % 256 + 256 * (q1 % 256));
    var bs := Le32(x);
    assert bs[0] == x % 256 && bs[1] == q1 % 256;
  }

  /** Narrowing the subtrahend first does not change the narrowed difference. */
  lemma ToInt32OfDifference(a: int, b: int)
    ensures ToInt32(a - ToInt32(b)) == ToInt32(a - b)
  {
    var j := b / 0x1_0000_0000;
    var t := ToInt32(b);
    assert b == 0x1_0000_0000 * j + b % 0x1_0000_0000;
    var k := if b % 0x1_0000_0000 < 0x8000_0000 then j else j + 1;
    assert a - t == (a - b) + 0x1_0000_0000 * k;
    ModOfShift32(a - b, k);
  }

  lemma ModOfShift32(x: int, k: int)
    ensures (x + 0x1_0000_0000 * k) % 0x1_0000_0000 == x % 0x1_0000_0000
  {
  }

  /** The remainder modulo 0x10000 of q * 0x10000 + r, for r in range, is r. */
  lemma ModOfSplit16(x: int, q: int, r: int)
    requires 0 <= r < 0x1_0000 && x == 0x1_0000 * q + r
    ensures x % 0x1_0000 == r
  {
  }

  /** toLong reads an encoded 32-bit field correctly exactly when the value is below 0x8000. */
  lemma ToLongExactIff(x: int)
    requires 0 <= x < 0x1_0000_0000
    ensures ToLong(Le32(x)) == x <==> x < 0x8000
  {
    ToLongOfLe32(x);
  }

  /** Java's `((long) upper << 32) | (lower & 0xffffffffL)` for two ints: the bit
      patterns do not overlap, so the OR is a sum, and it never leaves the long range. */
  function Combine64(upper: int, lower: int): (r: int)
    requires IsInt32(upper) && IsInt32(lower)
  {
    upper * 0x1_0000_0000 + lower % 0x1_0000_0000
  }

  /** The combined long has `upper` as its high int and the bits of `lower`
      as its low 32 bits, and lies in the long range. */
  lemma Combine64Parts(upper: int, lower: int)
    requires IsInt32(upper) && IsInt32(lower)
    ensures var r := Combine64(upper, lower);
            IsInt64(r) && r / 0x1_0000_0000 == upper && r % 0x1_0000_0000 == lower % 0x1_0000_0000
  {
  }

  /** With a zero upper half the long is the lower int read as unsigned. */
  lemma Combine64ZeroUpper(lower: int)
    requires IsInt32(lower)
    ensures Combine64(0, lower) == if lower >= 0 then lower else lower + 0x1_0000_0000
  {
  }

  /** Every long splits into an upper and a lower int that recombine to it. */
  lemma Combine64Split(r: int)
    requires IsInt64(r)
    ensures IsInt32(r / 0x1_0000_0000) && Combine64(r / 0x1_0000_0000, ToInt32(r % 0x1_0000_0000)) == r
  {
    assert r == 0x1_0000_0000 * (r / 0x1_0000_0000) + r % 0x1_0000_0000;
  }
}

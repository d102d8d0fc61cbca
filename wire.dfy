/**
 * Byte-level primitives of the save-file format: bytes, big-endian
 * two's-complement 32-bit integers, and the ways a decode can fail.
 */
module Wire {

  /** An octet of the file, as its unsigned value. */
  type byte = x: int | 0 <= x < 0x100

  const INT32_MIN: int := -0x8000_0000
  const INT32_MAX: int := 0x7FFF_FFFF

  /** The smaller of two integers. */
  function Min(a: int, b: int): int {
    if a <= b then a else b
  }

  /** Every way a decode of the save file aborts. */
  datatype Error =
    | MissingMagic                          // the header is not the stream magic: the program exits
    | NotBlockData(tag: seq<byte>)          // the byte after the magic is not the block-data tag: exits
    | MissingLength                         // no length byte left: `ord` of an empty read raises
    | ShortRead(wanted: nat, got: nat)      // fewer bytes than the format needs: `struct.unpack` raises
    | BadFormat(count: int)                 // a negative repeat count makes the format string malformed

  /** The unsigned value of four bytes, most significant first. */
  function BeUint32(b: seq<byte>): (u: nat)
    requires |b| == 4
    ensures u < 0x1_0000_0000
  {
    ((b[0] as int * 0x100 + b[1]) * 0x100 + b[2]) * 0x100 + b[3]
  }

  /** An int32 read as `>i`: four bytes, most significant first, two's complement. */
  function BeInt32(b: seq<byte>): (x: int)
    requires |b| == 4
    ensures INT32_MIN <= x <= INT32_MAX
    ensures x < 0 <==> b[0] >= 0x80
  {
    var u := BeUint32(b);
    if u < 0x8000_0000 then u else u - 0x1_0000_0000
  }

  /** The four bytes `>i` packs an int32 into; the reference inverse of BeInt32. */
  function EncodeInt32(x: int): (b: seq<byte>)
    requires INT32_MIN <= x <= INT32_MAX
    ensures |b| == 4
  {
    var u := if x < 0 then x + 0x1_0000_0000 else x;
    var t2 := u / 0x100;
    var t1 := t2 / 0x100;
    [(t1 / 0x100), (t1 % 0x100), (t2 % 0x100), (u % 0x100)]
  }

  /** Every int32 survives packing as `>i` and reading back. */
  lemma DecodeEncodeInt32(x: int)
    requires INT32_MIN <= x <= INT32_MAX
    ensures BeInt32(EncodeInt32(x)) == x
  {
    var u := if x < 0 then x + 0x1_0000_0000 else x;
    var t2 := u / 0x100;
    var t1 := t2 / 0x100;
    assert u == t2 * 0x100 + u % 0x100;
    assert t2 == t1 * 0x100 + t2 % 0x100;
    assert t1 == (t1 / 0x100) * 0x100 + t1 % 0x100;
    assert BeUint32(EncodeInt32(x)) == u;
  }

  /** Every four bytes are the packing of the int32 they read as: `>i` is a bijection. */
  lemma EncodeDecodeInt32(b: seq<byte>)
    requires |b| == 4
    ensures EncodeInt32(BeInt32(b)) == b
  {
    var u := BeUint32(b);
    var t1: int := b[0] as int * 0x100 + b[1];
    var t2: int := t1 * 0x100 + b[2];
    assert u == t2 * 0x100 + b[3] as int;
    DivModByte(u, t2, b[3]);
    DivModByte(t2, t1, b[2]);
    DivModByte(t1, b[0], b[1]);
    var e := EncodeInt32(BeInt32(b));
    assert e == [b[0], b[1], b[2], b[3]];
  }

  /** Dividing `q * 256 + r` by 256, for a digit `r`, gives back `q` and `r`. */
  lemma DivModByte(n: int, q: int, r: int)
    requires 0 <= r < 0x100 && n == q * 0x100 + r
    ensures n / 0x100 == q && n % 0x100 == r
  {
  }
}

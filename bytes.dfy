/**
 * Fixed-width integers and their little-endian wire form.
 *
 * The header record is written to the stream by overlaying the C struct on
 * the file's bytes, so every multi-byte field is stored in the host's byte
 * order; the model fixes that order as little-endian. Float fields are kept
 * as opaque 32-bit patterns and are never interpreted.
 */
module Bytes {

  type byte = b: int | 0 <= b < 0x100
  type int16 = x: int | -0x8000 <= x < 0x8000
  type int32 = x: int | -0x8000_0000 <= x < 0x8000_0000
  /** The bit pattern of an IEEE-754 single; stored and copied, never computed with. */
  type float32 = w: int | 0 <= w < 0x1_0000_0000

  function Le16(u: nat): (r: seq<byte>)
    requires u < 0x1_0000
    ensures |r| == 2
  {
    [u % 0x100, u / 0x100]
  }

  function Le32(u: nat): (r: seq<byte>)
    requires u < 0x1_0000_0000
    ensures |r| == 4
  {
    [u % 0x100, u / 0x100 % 0x100, u / 0x100 / 0x100 % 0x100, u / 0x100 / 0x100 / 0x100]
  }

  function Word16(b0: byte, b1: byte): nat
  {
    b0 + 0x100 * b1
  }

  function Word32(b0: byte, b1: byte, b2: byte, b3: byte): nat
  {
    b0 + 0x100 * b1 + 0x1_0000 * b2 + 0x100_0000 * b3
  }

  /** Two's complement reinterpretation of a signed field as an unsigned word. */
  function Unsigned16(x: int16): nat { if x < 0 then x + 0x1_0000 else x }
  function Unsigned32(x: int32): nat { if x < 0 then x + 0x1_0000_0000 else x }

  function EncodeI16(x: int16): (r: seq<byte>)
    ensures |r| == 2
  {
    Le16(Unsigned16(x))
  }

  function EncodeI32(x: int32): (r: seq<byte>)
    ensures |r| == 4
  {
    Le32(Unsigned32(x))
  }

  function EncodeF32(w: float32): (r: seq<byte>)
    ensures |r| == 4
  {
    Le32(w)
  }

  function I16At(bs: seq<byte>, i: nat): int16
    requires i + 2 <= |bs|
  {
    var u := Word16(bs[i], bs[i + 1]);
    if u < 0x8000 then u else u - 0x1_0000
  }

  function I32At(bs: seq<byte>, i: nat): int32
    requires i + 4 <= |bs|
  {
    var u := Word32(bs[i], bs[i + 1], bs[i + 2], bs[i + 3]);
    if u < 0x8000_0000 then u else u - 0x1_0000_0000
  }

  function F32At(bs: seq<byte>, i: nat): float32
    requires i + 4 <= |bs|
  {
    Word32(bs[i], bs[i + 1], bs[i + 2], bs[i + 3])
  }

  lemma Le16Word16(b0: byte, b1: byte)
    ensures Le16(Word16(b0, b1)) == [b0, b1]
  {
  }

  lemma Le32Word32(b0: byte, b1: byte, b2: byte, b3: byte)
    ensures Le32(Word32(b0, b1, b2, b3)) == [b0, b1, b2, b3]
  {
    var u := Word32(b0, b1, b2, b3);
    assert u / 0x100 == b1 + 0x100 * b2 + 0x1_0000 * b3;
    assert u / 0x100 / 0x100 == b2 + 0x100 * b3;
    assert u / 0x100 / 0x100 / 0x100 == b3;
  }

  lemma Word32Le32(u: nat)
    requires u < 0x1_0000_0000
    ensures var r := Le32(u); Word32(r[0], r[1], r[2], r[3]) == u
  {
    var q1 := u / 0x100;
    var q2 := q1 / 0x100;
    assert u == u % 0x100 + 0x100 * q1;
    assert q1 == q1 % 0x100 + 0x100 * q2;
    assert q2 == q2 % 0x100 + 0x100 * (q2 / 0x100);
  }

  /** Reading a signed 16-bit field back from the bytes it was written as. */
  lemma I16AtEncode(bs: seq<byte>, i: nat, x: int16)
    requires i + 2 <= |bs|
    requires bs[i] == EncodeI16(x)[0] && bs[i + 1] == EncodeI16(x)[1]
    ensures I16At(bs, i) == x
  {
  }

  lemma I32AtEncode(bs: seq<byte>, i: nat, x: int32)
    requires i + 4 <= |bs|
    requires bs[i] == EncodeI32(x)[0] && bs[i + 1] == EncodeI32(x)[1]
    requires bs[i + 2] == EncodeI32(x)[2] && bs[i + 3] == EncodeI32(x)[3]
    ensures I32At(bs, i) == x
  {
    Word32Le32(Unsigned32(x));
  }

  lemma F32AtEncode(bs: seq<byte>, i: nat, w: float32)
    requires i + 4 <= |bs|
    requires bs[i] == EncodeF32(w)[0] && bs[i + 1] == EncodeF32(w)[1]
    requires bs[i + 2] == EncodeF32(w)[2] && bs[i + 3] == EncodeF32(w)[3]
    ensures F32At(bs, i) == w
  {
    Word32Le32(w);
  }

  /** Encoding a field read from any bytes gives back exactly those bytes. */
  lemma EncodeI16At(bs: seq<byte>, i: nat)
    requires i + 2 <= |bs|
    ensures EncodeI16(I16At(bs, i)) == bs[i..i + 2]
  {
    Le16Word16(bs[i], bs[i + 1]);
  }

  lemma EncodeI32At(bs: seq<byte>, i: nat)
    requires i + 4 <= |bs|
    ensures EncodeI32(I32At(bs, i)) == bs[i..i + 4]
  {
    Le32Word32(bs[i], bs[i + 1], bs[i + 2], bs[i + 3]);
  }

  lemma EncodeF32At(bs: seq<byte>, i: nat)
    requires i + 4 <= |bs|
    ensures EncodeF32(F32At(bs, i)) == bs[i..i + 4]
  {
    Le32Word32(bs[i], bs[i + 1], bs[i + 2], bs[i + 3]);
  }

  /** A field read inside a slice is the same field read at the shifted offset of the whole. */
  lemma I16AtSlice(bs: seq<byte>, a: nat, b: nat, i: nat)
    requires a + i + 2 <= b <= |bs|
    ensures I16At(bs[a..b], i) == I16At(bs, a + i)
  {
  }

  lemma I32AtSlice(bs: seq<byte>, a: nat, b: nat, i: nat)
    requires a + i + 4 <= b <= |bs|
    ensures I32At(bs[a..b], i) == I32At(bs, a + i)
  {
  }

  lemma F32AtSlice(bs: seq<byte>, a: nat, b: nat, i: nat)
    requires a + i + 4 <= b <= |bs|
    ensures F32At(bs[a..b], i) == F32At(bs, a + i)
  {
  }

  /** Splitting a slice at an interior point and joining it again. */
  lemma JoinSlices(bs: seq<byte>, a: nat, b: nat, c: nat)
    requires a <= b <= c <= |bs|
    ensures bs[a..b] + bs[b..c] == bs[a..c]
  {
  }
}

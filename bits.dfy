/** Bytes, bits and the most-significant-bit-first conversion between them that the codec
    uses: `format(byte, '08b')` when it serialises a payload and `int(s, 2)` when it
    regroups extracted bits. */
module Bits {

  /** A channel byte of the image, or one byte of a payload. */
  type byte = x: int | 0 <= x < 256

  /** One bit, the character '0' or '1' of the source's bit strings. */
  type bit = x: int | 0 <= x < 2

  function Pow2(w: nat): (r: nat)
    ensures r >= 1
  {
    if w == 0 then 1 else 2 * Pow2(w - 1)
  }

  /** The `w` low bits of `v`, most significant first (`format(v, '0wb')` for `v < 2^w`). */
  function ToBits(v: nat, w: nat): (r: seq<bit>)
    ensures |r| == w
  {
    if w == 0 then [] else ToBits(v / 2, w - 1) + [v % 2]
  }

  /** The value of a bit string read most significant bit first (`int(s, 2)`). */
  function FromBits(s: seq<bit>): (r: nat)
    ensures r < Pow2(|s|)
  {
    if s == [] then 0 else 2 * FromBits(s[..|s| - 1]) + s[|s| - 1]
  }

  lemma {:induction false} FromBitsToBits(v: nat, w: nat)
    requires v < Pow2(w)
    ensures FromBits(ToBits(v, w)) == v
  {
    if w > 0 {
      var s := ToBits(v, w);
      assert s[..w - 1] == ToBits(v / 2, w - 1);
      FromBitsToBits(v / 2, w - 1);
    }
  }

  lemma {:induction false} ToBitsFromBits(s: seq<bit>)
    ensures ToBits(FromBits(s), |s|) == s
  {
    if s != [] {
      var init := s[..|s| - 1];
      ToBitsFromBits(init);
      assert (2 * FromBits(init) + s[|s| - 1]) / 2 == FromBits(init);
      assert s == init + [s[|s| - 1]];
    }
  }

  /** `format(b, '08b')`: the eight bits of a byte, most significant first. */
  function ByteBits(b: byte): (r: seq<bit>)
    ensures |r| == 8
    ensures r[7] == b % 2
  {
    ToBits(b, 8)
  }

  /** `int(s, 2)` on a group of eight bits. */
  function ByteOf(s: seq<bit>): (r: byte)
    requires |s| == 8
    ensures r % 2 == s[7]
  {
    assert Pow2(8) == 256;
    FromBits(s)
  }

  lemma ByteOfByteBits(b: byte)
    ensures ByteOf(ByteBits(b)) == b
  {
    assert Pow2(8) == 256;
    FromBitsToBits(b, 8);
  }

  lemma ByteBitsByteOf(s: seq<bit>)
    requires |s| == 8
    ensures ByteBits(ByteOf(s)) == s
  {
    ToBitsFromBits(s);
  }

  /** Eight one-bits, the serialisation of 0xFF. */
  const Ones8: seq<bit> := [1, 1, 1, 1, 1, 1, 1, 1]

  /** A group of eight bits is worth 0xFF exactly when every bit in it is one. */
  lemma AllOnesByte(s: seq<bit>)
    requires |s| == 8
    ensures ByteOf(s) == 255 <==> forall i :: 0 <= i < 8 ==> s[i] == 1
  {
    assert ByteBits(255) == Ones8;
    ByteBitsByteOf(s);
    if forall i :: 0 <= i < 8 ==> s[i] == 1 {
      assert s == Ones8;
      ByteOfByteBits(255);
    }
  }

  /** The payload's bit string: `''.join(format(byte, '08b') for byte in p)`. */
  function BitsOf(p: seq<byte>): (r: seq<bit>)
    ensures |r| == 8 * |p|
  {
    if p == [] then [] else ByteBits(p[0]) + BitsOf(p[1..])
  }

  /** Group `j` of eight bits of the payload's bit string is the serialisation of byte `j`. */
  lemma {:induction false} BitsOfGroup(p: seq<byte>, j: nat)
    requires j < |p|
    ensures BitsOf(p)[8 * j..8 * j + 8] == ByteBits(p[j])
  {
    if j > 0 {
      BitsOfGroup(p[1..], j - 1);
      assert BitsOf(p)[8 * j..8 * j + 8] == BitsOf(p[1..])[8 * (j - 1)..8 * (j - 1) + 8];
    }
  }
}

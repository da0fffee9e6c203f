/**
 * Bytes and the fixed-width little-endian integer codec that stands for
 * Python's `struct.pack("I", n)` (4 bytes) and the 8-byte image of a
 * binary64 float written by `struct.pack("d", v)`. Native byte order is
 * fixed as little-endian throughout.
 */
module Bytes {

  type byte = x: int | 0 <= x < 256

  /** The bit pattern of an IEEE 754 binary64 value; its numeric meaning is not modelled. */
  type Bits64 = n: nat | n < 0x1_0000_0000_0000_0000

  /** 256 to the power `width`: one more than the largest `width`-byte unsigned value. */
  function Pow256(width: nat): (p: nat)
    ensures p >= 1
  {
    if width == 0 then 1 else 256 * Pow256(width - 1)
  }

  lemma Pow256Values()
    ensures Pow256(4) == 0x1_0000_0000
    ensures Pow256(8) == 0x1_0000_0000_0000_0000
  {
  }

  /** `n` written as `width` bytes, least significant byte first. */
  function LittleEndian(n: nat, width: nat): (r: seq<byte>)
    requires n < Pow256(width)
    ensures |r| == width
  {
    if width == 0 then [] else [n % 256] + LittleEndian(n / 256, width - 1)
  }

  /** The unsigned integer whose little-endian image is `bs`. */
  function FromLittleEndian(bs: seq<byte>): (n: nat)
    ensures n < Pow256(|bs|)
  {
    if bs == [] then 0 else bs[0] + 256 * FromLittleEndian(bs[1..])
  }

  /** Decoding undoes encoding. */
  lemma {:induction false} DecodeEncode(n: nat, width: nat)
    requires n < Pow256(width)
    ensures FromLittleEndian(LittleEndian(n, width)) == n
  {
    if width > 0 {
      DecodeEncode(n / 256, width - 1);
      var r := LittleEndian(n, width);
      assert r[1..] == LittleEndian(n / 256, width - 1);
    }
  }

  /** Encoding undoes decoding: every byte string is the image of exactly one integer. */
  lemma {:induction false} EncodeDecode(bs: seq<byte>)
    ensures LittleEndian(FromLittleEndian(bs), |bs|) == bs
  {
    if bs != [] {
      EncodeDecode(bs[1..]);
      var n := FromLittleEndian(bs);
      assert n % 256 == bs[0];
      assert n / 256 == FromLittleEndian(bs[1..]);
    }
  }

  /** The 4-byte unsigned length field of a frame header. */
  function PackU32(n: nat): (r: seq<byte>)
    requires n < 0x1_0000_0000
    ensures |r| == 4 && UnpackU32(r) == n
  {
    Pow256Values();
    DecodeEncode(n, 4);
    LittleEndian(n, 4)
  }

  function UnpackU32(bs: seq<byte>): (n: nat)
    requires |bs| == 4
    ensures n < 0x1_0000_0000
  {
    Pow256Values();
    FromLittleEndian(bs)
  }

  /** The length field read back determines its four bytes. */
  lemma UnpackPackU32(bs: seq<byte>)
    requires |bs| == 4
    ensures PackU32(UnpackU32(bs)) == bs
  {
    EncodeDecode(bs);
  }

  /** The 8-byte image of a binary64 value. */
  function PackDouble(v: Bits64): (r: seq<byte>)
    ensures |r| == 8 && UnpackDouble(r) == v
  {
    Pow256Values();
    DecodeEncode(v, 8);
    LittleEndian(v, 8)
  }

  function UnpackDouble(bs: seq<byte>): Bits64
    requires |bs| == 8
  {
    Pow256Values();
    FromLittleEndian(bs)
  }

  /** Every 8-byte string is the image of the value read back from it. */
  lemma PackUnpackDouble(bs: seq<byte>)
    requires |bs| == 8
    ensures PackDouble(UnpackDouble(bs)) == bs
  {
    EncodeDecode(bs);
  }

  /**
   * What a blocking `recv(n)` on a stream returns when `s` is everything still
   * unread: all `n` bytes if they are there, otherwise what is left.
   */
  function Take(s: seq<byte>, n: nat): (r: seq<byte>)
    ensures |r| == if n <= |s| then n else |s|
    ensures r == s[..|r|]
  {
    if n <= |s| then s[..n] else s
  }
}

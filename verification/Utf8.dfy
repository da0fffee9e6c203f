/**
 * UTF-8, as `str.encode("utf-8")` produces it for the robot's error replies.
 * A Dafny `char` is a Unicode scalar value, so every string encodes.
 */
module Utf8 {
  import opened Bytes

  /** The code point spelled by one encoded character (the decoder's view of it). */
  function CodePoint(r: seq<byte>): int
    requires 1 <= |r| <= 4
  {
    if |r| == 1 then r[0] as int
    else if |r| == 2 then (r[0] as int - 0xC0) * 0x40 + (r[1] as int - 0x80)
    else if |r| == 3 then (r[0] as int - 0xE0) * 0x1000 + (r[1] as int - 0x80) * 0x40 + (r[2] as int - 0x80)
    else (r[0] as int - 0xF0) * 0x4_0000 + (r[1] as int - 0x80) * 0x1000 + (r[2] as int - 0x80) * 0x40 + (r[3] as int - 0x80)
  }

  /** The low six bits of `n` as a continuation byte. */
  function Continuation(n: nat): (b: byte)
    ensures 0x80 <= b < 0xC0 && b - 0x80 == n % 0x40
  {
    0x80 + n % 0x40
  }

  function EncodeTwo(n: nat): (r: seq<byte>)
    requires 0x80 <= n < 0x800
    ensures |r| == 2 && 0xC0 <= r[0] < 0xE0 && 0x80 <= r[1] < 0xC0
    ensures CodePoint(r) == n
  {
    [0xC0 + n / 0x40, Continuation(n)]
  }

  function EncodeThree(n: nat): (r: seq<byte>)
    requires 0x800 <= n < 0x1_0000
    ensures |r| == 3 && 0xE0 <= r[0] < 0xF0 && 0x80 <= r[1] < 0xC0 && 0x80 <= r[2] < 0xC0
    ensures CodePoint(r) == n
  {
    var hi, mid := n / 0x1000, n / 0x40;
    assert mid == hi * 0x40 + mid % 0x40;
    [0xE0 + hi, Continuation(mid), Continuation(n)]
  }

  function EncodeFour(n: nat): (r: seq<byte>)
    requires 0x1_0000 <= n < 0x11_0000
    ensures |r| == 4 && 0xF0 <= r[0] < 0xF8
    ensures 0x80 <= r[1] < 0xC0 && 0x80 <= r[2] < 0xC0 && 0x80 <= r[3] < 0xC0
    ensures CodePoint(r) == n
  {
    var hi, upper, mid := n / 0x4_0000, n / 0x1000, n / 0x40;
    assert upper == hi * 0x40 + upper % 0x40;
    assert mid == upper * 0x40 + mid % 0x40;
    [0xF0 + hi, Continuation(upper), Continuation(mid), Continuation(n)]
  }

  /**
   * One character: a lead byte that is never a continuation byte, then 0 to
   * 3 continuation bytes, as few as the code point allows, spelling the code
   * point back.
   */
  function EncodeChar(c: char): (r: seq<byte>)
    ensures 1 <= |r| <= 4
    ensures |r| == 1 <==> c as int < 0x80
    ensures |r| == 2 <==> 0x80 <= c as int < 0x800
    ensures |r| == 3 <==> 0x800 <= c as int < 0x1_0000
    ensures !(0x80 <= r[0] < 0xC0)
    ensures forall k :: 1 <= k < |r| ==> 0x80 <= r[k] < 0xC0
    ensures CodePoint(r) == c as int
  {
    var n := c as int;
    if n < 0x80 then [n]
    else if n < 0x800 then EncodeTwo(n)
    else if n < 0x1_0000 then EncodeThree(n)
    else EncodeFour(n)
  }

  /** A whole string: the characters' encodings one after another. */
  function Encode(s: string): (r: seq<byte>)
    ensures |s| <= |r| <= 4 * |s|
    ensures (forall k :: 0 <= k < |s| ==> s[k] as int < 0x80) ==>
      |r| == |s| && forall k :: 0 <= k < |s| ==> r[k] == s[k] as int
  {
    if s == [] then [] else EncodeChar(s[0]) + Encode(s[1..])
  }
}

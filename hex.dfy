/**
  Lowercase hexadecimal rendering of a digest, as `format!("{:02x}", b)` does
  for each byte: two characters per byte, zero-padded, in byte order.
 */
module Hex {
  import opened Numerics

  predicate IsLowerHex(c: char) {
    '0' <= c <= '9' || 'a' <= c <= 'f'
  }

  function HexValue(c: char): (v: nat)
    requires IsLowerHex(c)
    ensures v < 16
  {
    if c <= '9' then c as int - '0' as int else c as int - 'a' as int + 10
  }

  function HexDigit(v: nat): (c: char)
    requires v < 16
    ensures IsLowerHex(c) && HexValue(c) == v
  {
    if v < 10 then ('0' as int + v) as char else ('a' as int + v - 10) as char
  }

  /** `{:02x}` of one byte: high nibble first, then low nibble. */
  function ByteToHex(b: byte): (r: string)
    ensures |r| == 2 && IsLowerHex(r[0]) && IsLowerHex(r[1])
    ensures HexValue(r[0]) * 16 + HexValue(r[1]) == b
  {
    [HexDigit(b / 16), HexDigit(b % 16)]
  }

  /** The digest rendered as one string, byte by byte. */
  function Encode(d: seq<byte>): (r: string)
    ensures |r| == 2 * |d|
    ensures forall i :: 0 <= i < |r| ==> IsLowerHex(r[i])
    ensures forall i :: 0 <= i < |d| ==> r[2 * i..2 * i + 2] == ByteToHex(d[i])
    decreases |d|
  {
    if d == [] then [] else ByteToHex(d[0]) + Encode(d[1..])
  }

  /** Reads pairs of lowercase hex characters back into bytes. */
  function Decode(s: string): Option<seq<byte>>
    decreases |s|
  {
    if |s| == 0 then Some([])
    else if |s| == 1 || !IsLowerHex(s[0]) || !IsLowerHex(s[1]) then None
    else
      match Decode(s[2..])
      case None => None
      case Some(rest) => Some([HexValue(s[0]) * 16 + HexValue(s[1])] + rest)
  }

  /** Decoding the character pairs of a rendering gives back the digest bytes. */
  lemma {:induction false} DecodeEncode(d: seq<byte>)
    ensures Decode(Encode(d)) == Some(d)
    decreases |d|
  {
    if d != [] {
      var r := Encode(d);
      assert r[2..] == Encode(d[1..]);
      DecodeEncode(d[1..]);
      assert d == [d[0]] + d[1..];
    }
  }

  /** The rendering is injective: distinct digests render differently. */
  lemma EncodeInjective(a: seq<byte>, b: seq<byte>)
    ensures Encode(a) == Encode(b) <==> a == b
  {
    DecodeEncode(a);
    DecodeEncode(b);
  }
}

/**
  UTF-8 encoding of a string (RFC 3629), as Rust's `str::as_bytes` exposes it:
  the signature is computed over these bytes. `Decode` is a left inverse used to
  show that the encoding loses nothing; it does not reject every ill-formed
  byte sequence.
 */
module Utf8 {
  import opened Numerics

  function EncodeChar(c: char): (r: seq<byte>)
    ensures 1 <= |r| <= 4
    ensures |r| == (if c as int < 0x80 then 1 else if c as int < 0x800 then 2 else if c as int < 0x1_0000 then 3 else 4)
    ensures |r| > 1 ==> 0xC0 <= r[0] && forall i :: 1 <= i < |r| ==> 0x80 <= r[i] < 0xC0
    ensures |r| == LeadLength(r[0])
    ensures DecodeChar(r) == c as int
  {
    var v := c as int;
    if v < 0x80 then [v]
    else if v < 0x800 then Encode2(v)
    else if v < 0x1_0000 then Encode3(v)
    else Encode4(v)
  }

  /** The lowest six bits of `v` and the bits above them. */
  lemma SixBits(v: nat)
    ensures v == (v / 0x40) * 0x40 + v % 0x40 && 0 <= v % 0x40 < 0x40
  {
  }

  function Encode2(v: int): (r: seq<byte>)
    requires 0x80 <= v < 0x800
    ensures |r| == 2 == LeadLength(r[0]) && DecodeChar(r) == v
    ensures 0xC0 <= r[0] && forall i :: 1 <= i < |r| ==> 0x80 <= r[i] < 0xC0
  {
    var w := v / 0x40;
    SixBits(v);
    [0xC0 + w, 0x80 + v % 0x40]
  }

  function Encode3(v: int): (r: seq<byte>)
    requires 0x800 <= v < 0x1_0000
    ensures |r| == 3 == LeadLength(r[0]) && DecodeChar(r) == v
    ensures 0xC0 <= r[0] && forall i :: 1 <= i < |r| ==> 0x80 <= r[i] < 0xC0
  {
    var w := v / 0x40;
    var x := w / 0x40;
    SixBits(v);
    SixBits(w);
    [0xE0 + x, 0x80 + w % 0x40, 0x80 + v % 0x40]
  }

  function Encode4(v: int): (r: seq<byte>)
    requires 0x1_0000 <= v < 0x11_0000
    ensures |r| == 4 == LeadLength(r[0]) && DecodeChar(r) == v
    ensures 0xC0 <= r[0] && forall i :: 1 <= i < |r| ==> 0x80 <= r[i] < 0xC0
  {
    var w := v / 0x40;
    var x := w / 0x40;
    var y := x / 0x40;
    SixBits(v);
    SixBits(w);
    SixBits(x);
    [0xF0 + y, 0x80 + x % 0x40, 0x80 + w % 0x40, 0x80 + v % 0x40]
  }

  function Encode(s: string): (r: seq<byte>)
    ensures |s| <= |r| <= 4 * |s|
  {
    if s == [] then [] else EncodeChar(s[0]) + Encode(s[1..])
  }

  /** The number of bytes of the encoded character that starts with `b`. */
  function LeadLength(b: byte): nat {
    if b < 0x80 then 1 else if b < 0xE0 then 2 else if b < 0xF0 then 3 else 4
  }

  /** The scalar value of the one to four bytes of a single encoded character. */
  function DecodeChar(bs: seq<byte>): int
    requires 1 <= |bs| <= 4
  {
    var b: seq<int> := bs;
    if |b| == 1 then b[0]
    else if |b| == 2 then (b[0] - 0xC0) * 0x40 + (b[1] - 0x80)
    else if |b| == 3 then (b[0] - 0xE0) * 0x1000 + (b[1] - 0x80) * 0x40 + (b[2] - 0x80)
    else (b[0] - 0xF0) * 0x4_0000 + (b[1] - 0x80) * 0x1000 + (b[2] - 0x80) * 0x40 + (b[3] - 0x80)
  }

  predicate IsScalarValue(v: int) {
    0 <= v < 0xD800 || 0xE000 <= v < 0x11_0000
  }

  function Decode(bs: seq<byte>): Option<string>
    decreases |bs|
  {
    if bs == [] then Some([])
    else
      var len := LeadLength(bs[0]);
      if |bs| < len then None
      else
        var v := DecodeChar(bs[..len]);
        if !IsScalarValue(v) then None
        else
          match Decode(bs[len..])
          case None => None
          case Some(rest) => Some([v as char] + rest)
  }

  /** Decoding the encoding of a string gives the string back. */
  lemma {:induction false} DecodeEncode(s: string)
    ensures Decode(Encode(s)) == Some(s)
    decreases |s|
  {
    if s != [] {
      var head := EncodeChar(s[0]);
      var bs := Encode(s);
      assert bs == head + Encode(s[1..]);
      assert bs[0] == head[0];
      assert bs[..|head|] == head;
      assert bs[|head|..] == Encode(s[1..]);
      DecodeEncode(s[1..]);
      assert s == [s[0]] + s[1..];
    }
  }

  /** Distinct strings have distinct encodings. */
  lemma EncodeInjective(s: string, t: string)
    ensures Encode(s) == Encode(t) <==> s == t
  {
    DecodeEncode(s);
    DecodeEncode(t);
  }

  /** The encoding of a concatenation is the concatenation of the encodings. */
  lemma {:induction false} EncodeAppend(s: string, t: string)
    ensures Encode(s + t) == Encode(s) + Encode(t)
    decreases |s|
  {
    if s != [] {
      assert (s + t)[0] == s[0] && (s + t)[1..] == s[1..] + t;
      EncodeAppend(s[1..], t);
    } else {
      assert s + t == t;
    }
  }
}

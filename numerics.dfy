/**
  Machine integer ranges, an Option type, and the decimal rendering and
  parsing that Rust's `to_string` and `str::parse` perform on integers.
  The migration tool uses them on the clock value (`u64` seconds rendered,
  then parsed back as `i64`) and on the `CHUNK_SIZE` setting (parsed as
  `usize`, a 64-bit target is assumed).
 */
module Numerics {

  type byte = b: int | 0 <= b < 0x100

  const I64_LIMIT: int := 0x8000_0000_0000_0000
  const U64_LIMIT: int := 0x1_0000_0000_0000_0000

  type i32 = x: int | -0x8000_0000 <= x < 0x8000_0000
  type i64 = x: int | -0x8000_0000_0000_0000 <= x < 0x8000_0000_0000_0000
  type u64 = x: int | 0 <= x < 0x1_0000_0000_0000_0000

  /** `usize` on a 64-bit target. */
  type usize = u64

  datatype Option<T> = None | Some(value: T)

  predicate IsDigit(c: char) {
    '0' <= c <= '9'
  }

  predicate AllDigits(s: string) {
    forall i :: 0 <= i < |s| ==> IsDigit(s[i])
  }

  function DigitValue(c: char): (d: nat)
    requires IsDigit(c)
    ensures d < 10
  {
    c as int - '0' as int
  }

  function DigitChar(d: nat): (c: char)
    requires d < 10
    ensures IsDigit(c) && DigitValue(c) == d
  {
    ('0' as int + d) as char
  }

  /** The decimal text of `n`, as `to_string` renders any unsigned integer. */
  function NatToString(n: nat): (s: string)
    ensures |s| > 0 && AllDigits(s)
    decreases n
  {
    if n < 10 then [DigitChar(n)] else NatToString(n / 10) + [DigitChar(n % 10)]
  }

  /** The value of a string of decimal digits, accumulated left to right. */
  function DigitsValue(s: string): nat
    requires AllDigits(s)
  {
    if s == [] then 0 else DigitsValue(s[..|s| - 1]) * 10 + DigitValue(s[|s| - 1])
  }

  /** `i64::to_string`: a minus sign before the magnitude of a negative value. */
  function I64ToString(x: i64): (r: string)
    ensures |r| > 0 && (r[0] == '-' <==> x < 0)
    ensures x >= 0 ==> IsDigit(r[0])
    ensures forall i :: 0 < i < |r| ==> IsDigit(r[i])
    ensures (r[0] == '0' <==> x == 0) && (x == 0 ==> r == "0")
    ensures x < 0 ==> |r| > 1 && r[1] != '0'
  {
    if x < 0 then
      NoLeadingZero(-(x as int));
      "-" + NatToString(-(x as int))
    else
      NoLeadingZero(x);
      NatToString(x)
  }

  /**
    `str::parse::<i64>`: an optional `+` or `-`, then at least one decimal digit
    (leading zeros allowed); a value outside the `i64` range is an error.
    The kinds of error (empty, invalid digit, overflow) are not distinguished.
   */
  function ParseI64(s: string): Option<i64> {
    if |s| == 0 || ((s[0] == '+' || s[0] == '-') && |s| == 1) then None
    else
      var digits := if s[0] == '+' || s[0] == '-' then s[1..] else s;
      if !AllDigits(digits) then None
      else
        var v := DigitsValue(digits);
        if s[0] == '-' then (if v <= I64_LIMIT then Some(0 - v as int) else None)
        else if v < I64_LIMIT then Some(v) else None
  }

  /**
    `str::parse::<usize>`: like `ParseI64`, except that only `+` is accepted as a
    sign (a leading `-` is an invalid digit) and the range is `0 .. 2^64`.
   */
  function ParseUsize(s: string): Option<usize> {
    if |s| == 0 || ((s[0] == '+' || s[0] == '-') && |s| == 1) then None
    else
      var digits := if s[0] == '+' then s[1..] else s;
      if !AllDigits(digits) then None
      else
        var v := DigitsValue(digits);
        if v < U64_LIMIT then Some(v) else None
  }

  /** Reading back the decimal text of `n` gives `n`. */
  lemma {:induction false} DigitsValueOfNatToString(n: nat)
    ensures DigitsValue(NatToString(n)) == n
    decreases n
  {
    var s := NatToString(n);
    if n >= 10 {
      assert s[..|s| - 1] == NatToString(n / 10);
      DigitsValueOfNatToString(n / 10);
    }
  }

  /** Decimal rendering is injective. */
  lemma NatToStringInjective(m: nat, n: nat)
    ensures NatToString(m) == NatToString(n) <==> m == n
  {
    DigitsValueOfNatToString(m);
    DigitsValueOfNatToString(n);
  }

  /** The rendering has no leading zero, except for `"0"` itself. */
  lemma {:induction false} NoLeadingZero(n: nat)
    ensures NatToString(n)[0] == '0' <==> n == 0
    ensures n == 0 ==> NatToString(n) == "0"
    decreases n
  {
    if n >= 10 {
      NoLeadingZero(n / 10);
    }
  }

  lemma {:induction false} LeadingDigitPositive(s: string)
    requires |s| > 0 && AllDigits(s) && s[0] != '0'
    ensures DigitsValue(s) > 0
    decreases |s|
  {
    if |s| > 1 {
      LeadingDigitPositive(s[..|s| - 1]);
    }
  }

  /**
    The rendering is the canonical form: every non-empty digit string without a
    leading zero (other than `"0"`) is the rendering of its own value.
   */
  lemma {:induction false} CanonicalDigits(s: string)
    requires |s| > 0 && AllDigits(s) && (s[0] != '0' || |s| == 1)
    ensures NatToString(DigitsValue(s)) == s
    decreases |s|
  {
    var p := s[..|s| - 1];
    var v := DigitsValue(s);
    if |s| > 1 {
      LeadingDigitPositive(p);
      CanonicalDigits(p);
      assert v / 10 == DigitsValue(p) && v % 10 == DigitValue(s[|s| - 1]);
      assert s == p + [s[|s| - 1]];
    }
  }

  /** `ParseI64` reads back every `i64` that `I64ToString` renders. */
  lemma I64RoundTrip(x: i64)
    ensures ParseI64(I64ToString(x)) == Some(x)
  {
    if x < 0 {
      DigitsValueOfNatToString(-(x as int));
      assert (I64ToString(x))[1..] == NatToString(-(x as int));
    } else {
      DigitsValueOfNatToString(x);
      NoLeadingZero(x);
    }
  }

  /**
    A seconds count rendered in decimal parses back as `i64` exactly when it is
    below 2^63, and then to the same value, whose `i64` rendering is the same text.
   */
  lemma SecondsRoundTrip(t: nat)
    ensures ParseI64(NatToString(t)).Some? <==> t < I64_LIMIT
    ensures t < I64_LIMIT ==>
      ParseI64(NatToString(t)) == Some(t) && I64ToString(t) == NatToString(t)
  {
    DigitsValueOfNatToString(t);
    NoLeadingZero(t);
  }

  /** `ParseUsize` reads back the rendering of every `usize`. */
  lemma UsizeRoundTrip(n: usize)
    ensures ParseUsize(NatToString(n)) == Some(n)
  {
    DigitsValueOfNatToString(n);
    NoLeadingZero(n);
  }
}

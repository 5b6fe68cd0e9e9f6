/**
 * Rust's `str::parse` for the integer types the code uses (`i32`, `u32`,
 * `i64`), and the decimal rendering it inverts.
 */
module RustInt {
  import opened Wrappers
  import opened RustChar

  const I32Min: int := -0x8000_0000
  const I32Max: int := 0x7FFF_FFFF
  const U32Max: int := 0xFFFF_FFFF
  const I64Min: int := -0x8000_0000_0000_0000
  const I64Max: int := 0x7FFF_FFFF_FFFF_FFFF
  const U64Max: int := 0xFFFF_FFFF_FFFF_FFFF

  newtype u16 = x: int | 0 <= x < 0x1_0000
  newtype u32 = x: int | 0 <= x <= 0xFFFF_FFFF
  newtype u64 = x: int | 0 <= x <= 0xFFFF_FFFF_FFFF_FFFF
  newtype i64 = x: int | -0x8000_0000_0000_0000 <= x <= 0x7FFF_FFFF_FFFF_FFFF

  predicate AllDigits(s: string) {
    forall i :: 0 <= i < |s| ==> IsAsciiDigit(s[i])
  }

  function DigitValue(c: char): nat
    requires IsAsciiDigit(c)
  {
    c as int - '0' as int
  }

  function DigitChar(d: nat): (c: char)
    requires d < 10
    ensures IsAsciiDigit(c) && DigitValue(c) == d
  {
    ('0' as int + d) as char
  }

  /** The value of a string of decimal digits, most significant first. */
  function DigitsValue(s: string): nat
    requires AllDigits(s)
    decreases |s|
  {
    if |s| == 0 then 0 else 10 * DigitsValue(s[..|s| - 1]) + DigitValue(s[|s| - 1])
  }

  /**
   * `s.parse::<T>()` for an integer type T with range [lo, hi]; `signed`
   * tells whether T accepts a leading '-'. A single '+' is always
   * accepted; the empty string, a lone sign, any other character and a
   * value out of range are errors (here: None).
   */
  function ParseInt(s: string, signed: bool, lo: int, hi: int): (r: Option<int>)
    ensures r.Some? ==> lo <= r.value <= hi
    ensures r.Some? ==> |s| > 0 && (s[0] == '-' ==> signed && r.value <= 0)
  {
    if |s| == 0 || s == "+" || s == "-" then None
    else
      var negative := s[0] == '-' && signed;
      var digits := if s[0] == '+' || negative then s[1..] else s;
      if !AllDigits(digits) then None
      else
        var v: int := if negative then -(DigitsValue(digits) as int) else DigitsValue(digits);
        if lo <= v <= hi then Some(v) else None
  }

  /** `s.parse::<i32>()` */
  function ParseI32(s: string): (r: Option<int>)
    ensures r.Some? ==> I32Min <= r.value <= I32Max
  {
    ParseInt(s, true, I32Min, I32Max)
  }

  /** `s.parse::<u32>()`: no sign but '+' is accepted. */
  function ParseU32(s: string): (r: Option<int>)
    ensures r.Some? ==> 0 <= r.value <= U32Max
    ensures r.Some? ==> |s| > 0 && s[0] != '-'
  {
    ParseInt(s, false, 0, U32Max)
  }

  /** `s.parse::<i64>()` */
  function ParseI64(s: string): (r: Option<int>)
    ensures r.Some? ==> I64Min <= r.value <= I64Max
  {
    ParseInt(s, true, I64Min, I64Max)
  }

  /** `n.to_string()` for a natural number. */
  function NatToDecimal(n: nat): (s: string)
    decreases n
  {
    if n < 10 then [DigitChar(n)] else NatToDecimal(n / 10) + [DigitChar(n % 10)]
  }

  /** `n.to_string()` for an integer. */
  function ToDecimal(n: int): string {
    if n < 0 then "-" + NatToDecimal(-n) else NatToDecimal(n)
  }

  lemma {:induction false} NatToDecimalDigits(n: nat)
    ensures |NatToDecimal(n)| > 0
    ensures AllDigits(NatToDecimal(n))
    ensures DigitsValue(NatToDecimal(n)) == n
    decreases n
  {
    var s := NatToDecimal(n);
    if n >= 10 {
      NatToDecimalDigits(n / 10);
      assert s[..|s| - 1] == NatToDecimal(n / 10);
    }
  }

  /** Parsing inverts rendering for every value of the target type. */
  lemma ParseToDecimal(n: int, signed: bool, lo: int, hi: int)
    requires lo <= n <= hi
    requires n < 0 ==> signed
    ensures ParseInt(ToDecimal(n), signed, lo, hi) == Some(n)
  {
    if n < 0 {
      NatToDecimalDigits(-n);
      assert ToDecimal(n)[1..] == NatToDecimal(-n);
    } else {
      NatToDecimalDigits(n);
    }
  }

  /** A character other than a digit after the optional sign makes the parse fail. */
  lemma ParseRejectsNonDigit(s: string, signed: bool, lo: int, hi: int, i: nat)
    requires 0 < i < |s| && !IsAsciiDigit(s[i])
    ensures ParseInt(s, signed, lo, hi) == None
  {
    if s != "+" && s != "-" {
      var negative := s[0] == '-' && signed;
      var digits := if s[0] == '+' || negative then s[1..] else s;
      if s[0] == '+' || negative {
        assert digits[i - 1] == s[i];
      } else {
        assert digits[i] == s[i];
      }
    }
  }

  /** Two's-complement wrap-around of an `i32` operation in a release build. */
  function WrapI32(x: int): (r: int)
    ensures I32Min <= r <= I32Max
    ensures (r - x) % 0x1_0000_0000 == 0
    ensures I32Min <= x <= I32Max ==> r == x
  {
    (x - I32Min) % 0x1_0000_0000 + I32Min
  }
}

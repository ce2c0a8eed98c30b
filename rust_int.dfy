/**
 * The fixed-width integers of the program and Rust's `str::parse::<i32>`,
 * which turns the text glued to an iterations option into a number, and the
 * `as u64` cast that hands that number to the encoder.
 */
module RustInt {
  import opened Wrappers

  const I32_MIN: int := -0x8000_0000
  const I32_MAX: int := 0x7fff_ffff
  const U64_MODULUS: int := 0x1_0000_0000_0000_0000

  type i32 = x: int | -0x8000_0000 <= x <= 0x7fff_ffff
  type u64 = x: int | 0 <= x < 0x1_0000_0000_0000_0000

  /** The kinds of `ParseIntError` that parsing an `i32` can report. */
  datatype IntErrorKind = Empty | InvalidDigit | PosOverflow | NegOverflow

  predicate IsDigit(c: char) {
    '0' <= c <= '9'
  }

  function DigitValue(c: char): (d: nat)
    requires IsDigit(c)
    ensures d < 10
  {
    (c as int) - ('0' as int)
  }

  predicate AllDigits(ds: string) {
    forall i :: 0 <= i < |ds| ==> IsDigit(ds[i])
  }

  function Pow10(n: nat): (p: nat)
    ensures p >= 1
  {
    if n == 0 then 1 else 10 * Pow10(n - 1)
  }

  /** Positional value of a string of decimal digits, most significant digit first. */
  function DigitsValue(ds: string): nat
    requires AllDigits(ds)
  {
    if ds == [] then 0 else DigitValue(ds[0]) * Pow10(|ds| - 1) + DigitsValue(ds[1..])
  }

  /** A decimal numeral in the form Rust accepts: an optional `+` or `-`, then at least one digit. */
  predicate IsNumeral(s: string) {
    if |s| > 0 && (s[0] == '+' || s[0] == '-') then |s| > 1 && AllDigits(s[1..])
    else |s| > 0 && AllDigits(s)
  }

  /** The mathematical value a numeral denotes. */
  function NumeralValue(s: string): int
    requires IsNumeral(s)
  {
    if s[0] == '-' then -(DigitsValue(s[1..]) as int)
    else if s[0] == '+' then DigitsValue(s[1..])
    else DigitsValue(s)
  }

  predicate InI32(x: int) {
    I32_MIN <= x <= I32_MAX
  }

  /**
   * Rust's `i32::from_str`: an empty string is `Empty`; a lone sign is
   * `InvalidDigit`; otherwise the digits are accumulated left to right with
   * checked arithmetic, and the first character that is not a digit, or the
   * first step that leaves the range, decides the error.
   */
  function ParseI32(s: string): (r: Result<i32, IntErrorKind>)
    ensures r == Err(Empty) <==> s == []
  {
    if |s| == 0 then Err(Empty)
    else if (s[0] == '+' || s[0] == '-') && |s| == 1 then Err(InvalidDigit)
    else if s[0] == '+' then Accumulate(s[1..], 0, false)
    else if s[0] == '-' then Accumulate(s[1..], 0, true)
    else Accumulate(s, 0, false)
  }

  /** The digit loop of `from_str_radix`, from accumulator `acc`, subtracting digits when `negative`. */
  function Accumulate(ds: string, acc: int, negative: bool): (r: Result<i32, IntErrorKind>)
    requires InI32(acc)
    requires if negative then acc <= 0 else acc >= 0
    ensures r != Err(Empty)
    decreases |ds|
  {
    if ds == [] then Ok(acc)
    else if !IsDigit(ds[0]) then Err(InvalidDigit)
    else
      var next := if negative then acc * 10 - DigitValue(ds[0]) else acc * 10 + DigitValue(ds[0]);
      if next < I32_MIN then Err(NegOverflow)
      else if next > I32_MAX then Err(PosOverflow)
      else Accumulate(ds[1..], next, negative)
  }

  /** What the digit loop computes from `acc` when every character is a digit. */
  function Extended(acc: int, ds: string, negative: bool): int
    requires AllDigits(ds)
  {
    if negative then acc * Pow10(|ds|) - DigitsValue(ds) else acc * Pow10(|ds|) + DigitsValue(ds)
  }

  lemma ScaleAtLeast(x: int, p: nat)
    requires p >= 1
    ensures x >= 0 ==> x * p >= x
    ensures x <= 0 ==> x * p <= x
  {
  }

  lemma ExtendedStep(acc: int, ds: string, negative: bool)
    requires ds != [] && AllDigits(ds)
    ensures AllDigits(ds[1..])
    ensures Extended(acc, ds, negative)
         == Extended(if negative then acc * 10 - DigitValue(ds[0]) else acc * 10 + DigitValue(ds[0]), ds[1..], negative)
  {
    var p := Pow10(|ds| - 1);
    var d := DigitValue(ds[0]);
    assert Pow10(|ds|) == 10 * p;
    assert acc * (10 * p) == (acc * 10) * p;
    if negative {
      assert (acc * 10 - d) * p == (acc * 10) * p - d * p;
    } else {
      assert (acc * 10 + d) * p == (acc * 10) * p + d * p;
    }
  }

  /** The digit loop succeeds exactly when all characters are digits and the value stays in range. */
  lemma {:induction false} AccumulateMeans(ds: string, acc: int, negative: bool)
    requires InI32(acc)
    requires if negative then acc <= 0 else acc >= 0
    ensures Accumulate(ds, acc, negative).Ok? <==> AllDigits(ds) && InI32(Extended(acc, ds, negative))
    ensures Accumulate(ds, acc, negative).Ok? ==> Accumulate(ds, acc, negative).value == Extended(acc, ds, negative)
    decreases |ds|
  {
    if ds == [] {
      assert Extended(acc, ds, negative) == acc;
    } else if !IsDigit(ds[0]) {
    } else {
      var next := if negative then acc * 10 - DigitValue(ds[0]) else acc * 10 + DigitValue(ds[0]);
      if AllDigits(ds) {
        ExtendedStep(acc, ds, negative);
        ScaleAtLeast(next, Pow10(|ds| - 1));
        assert DigitsValue(ds[1..]) >= 0;
      } else {
        assert !AllDigits(ds[1..]) by {
          var i :| 0 <= i < |ds| && !IsDigit(ds[i]);
          assert ds[1..][i - 1] == ds[i];
        }
      }
      if InI32(next) {
        AccumulateMeans(ds[1..], next, negative);
      }
    }
  }

  /**
   * Parsing an `i32` succeeds exactly on the numerals whose value fits in 32
   * signed bits, and then yields that value.
   */
  lemma ParseI32Means(s: string)
    ensures ParseI32(s).Ok? <==> IsNumeral(s) && InI32(NumeralValue(s))
    ensures ParseI32(s).Ok? ==> ParseI32(s).value == NumeralValue(s)
  {
    if |s| == 0 {
    } else if (s[0] == '+' || s[0] == '-') && |s| == 1 {
    } else if s[0] == '+' || s[0] == '-' {
      AccumulateMeans(s[1..], 0, s[0] == '-');
      if AllDigits(s[1..]) {
        assert Extended(0, s[1..], s[0] == '-') == NumeralValue(s);
      }
    } else {
      AccumulateMeans(s, 0, false);
      if AllDigits(s) {
        assert Extended(0, s, false) == NumeralValue(s);
      }
    }
  }

  /**
   * `i as u64` on an `i32`: the unsigned 64-bit number with the same bit
   * pattern after sign extension, that is, the one congruent to `i` modulo 2^64.
   */
  function AsU64(i: i32): (r: u64)
    ensures (r - i) % U64_MODULUS == 0
    ensures r == 0 <==> i == 0
  {
    if i >= 0 then i else i + U64_MODULUS
  }
}

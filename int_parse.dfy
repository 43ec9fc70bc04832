/**
 * Rust's `str::parse::<i32>` (base 10, optional leading sign), which the
 * column sum applies to every non-header cell, and the kinds of
 * `ParseIntError` it reports. The error value carries only its kind.
 */
module IntParse {
  import opened Wrappers

  /** `std::num::IntErrorKind`, restricted to what `parse::<i32>` can report. */
  datatype IntErrorKind = Empty | InvalidDigit | PosOverflow | NegOverflow

  const I32_MIN: int := -0x8000_0000
  const I32_MAX: int := 0x7fff_ffff

  predicate IsDigit(c: char) { '0' <= c <= '9' }

  predicate AllDigits(s: string) { forall i :: 0 <= i < |s| ==> IsDigit(s[i]) }

  function DigitValue(c: char): nat
    requires IsDigit(c)
  {
    c as int - '0' as int
  }

  /** The number the digits `d` denote when read left to right after the value `acc`. */
  function DigitsValue(d: string, acc: int): (v: int)
    requires AllDigits(d)
    ensures acc >= 0 ==> v >= acc
    decreases |d|
  {
    if d == [] then acc else DigitsValue(d[1..], acc * 10 + DigitValue(d[0]))
  }

  /** The value of a string of decimal digits. */
  function DecimalValue(d: string): nat
    requires AllDigits(d)
  {
    DigitsValue(d, 0)
  }

  /** A cell that `parse::<i32>` accepts when it carries no sign. */
  predicate IsI32Decimal(s: string)
  {
    s != [] && AllDigits(s) && DecimalValue(s) <= I32_MAX
  }

  /** Number of leading decimal digits of `s`. */
  function LeadingDigits(s: string): (n: nat)
    ensures n <= |s| && AllDigits(s[..n])
    ensures n < |s| ==> !IsDigit(s[n])
    decreases |s|
  {
    if s == [] || !IsDigit(s[0]) then 0
    else
      var n := 1 + LeadingDigits(s[1..]);
      assert forall i :: 1 <= i < n ==> s[..n][i] == s[1..][..n - 1][i - 1];
      n
  }

  /**
   * The digit loop of `from_str_radix`: each character must be a digit
   * (else InvalidDigit); then the running value is multiplied by ten and the
   * digit added (positive) or subtracted (negative), failing with
   * PosOverflow or NegOverflow as soon as it leaves the i32 range.
   */
  function Accumulate(digits: string, acc: int, negative: bool): (r: Result<int, IntErrorKind>)
    ensures !negative && 0 <= acc <= I32_MAX && r.Ok? ==> 0 <= r.value <= I32_MAX
    ensures negative && I32_MIN <= acc <= 0 && r.Ok? ==> I32_MIN <= r.value <= 0
    ensures r != Err(Empty)
    ensures negative ==> r != Err(PosOverflow)
    ensures !negative ==> r != Err(NegOverflow)
    decreases |digits|
  {
    if digits == [] then Ok(acc)
    else if !IsDigit(digits[0]) then Err(InvalidDigit)
    else if negative then
      var next := acc * 10 - DigitValue(digits[0]);
      if next < I32_MIN then Err(NegOverflow) else Accumulate(digits[1..], next, true)
    else
      var next := acc * 10 + DigitValue(digits[0]);
      if next > I32_MAX then Err(PosOverflow) else Accumulate(digits[1..], next, false)
  }

  /** `s.parse::<i32>()`. */
  function ParseI32(s: string): (r: Result<int, IntErrorKind>)
    ensures r.Ok? ==> I32_MIN <= r.value <= I32_MAX
    ensures r == Err(Empty) <==> s == []
  {
    if s == [] then Err(Empty)
    else if |s| == 1 && (s[0] == '+' || s[0] == '-') then Err(InvalidDigit)
    else if s[0] == '+' then Accumulate(s[1..], 0, false)
    else if s[0] == '-' then Accumulate(s[1..], 0, true)
    else Accumulate(s, 0, false)
  }

  /**
   * The positive digit loop, given the index `i` of the first non-digit (or
   * the end): it overflows exactly when the digits before `i` exceed
   * I32_MAX, else it stops at the non-digit, else it returns their value.
   */
  lemma {:induction false} AccumulatePositive(d: string, acc: int, i: nat)
    requires 0 <= acc <= I32_MAX
    requires i <= |d| && AllDigits(d[..i]) && (i == |d| || !IsDigit(d[i]))
    ensures Accumulate(d, acc, false) ==
      if DigitsValue(d[..i], acc) > I32_MAX then Err(PosOverflow)
      else if i < |d| then Err(InvalidDigit)
      else Ok(DigitsValue(d[..i], acc))
    decreases i
  {
    if i == 0 {
      assert d[..0] == [];
    } else {
      var next := acc * 10 + DigitValue(d[0]);
      assert d[..i][1..] == d[1..][..i - 1];
      if next <= I32_MAX {
        AccumulatePositive(d[1..], next, i - 1);
      }
    }
  }

  /** The negative digit loop, with the running value written as `-m`. */
  lemma {:induction false} AccumulateNegative(d: string, m: int, i: nat)
    requires 0 <= m <= -I32_MIN
    requires i <= |d| && AllDigits(d[..i]) && (i == |d| || !IsDigit(d[i]))
    ensures Accumulate(d, -m, true) ==
      if DigitsValue(d[..i], m) > -I32_MIN then Err(NegOverflow)
      else if i < |d| then Err(InvalidDigit)
      else Ok(-DigitsValue(d[..i], m))
    decreases i
  {
    if i == 0 {
      assert d[..0] == [];
    } else {
      var next := m * 10 + DigitValue(d[0]);
      assert d[..i][1..] == d[1..][..i - 1];
      assert -m * 10 - DigitValue(d[0]) == -next;
      if next <= -I32_MIN {
        AccumulateNegative(d[1..], next, i - 1);
      }
    }
  }

  /**
   * An unsigned text: Empty when empty; otherwise, with `i` its number of
   * leading digits, PosOverflow when those digits exceed I32_MAX, else
   * InvalidDigit when a non-digit follows, else their value.
   */
  lemma ParseUnsigned(s: string)
    requires s == [] || (s[0] != '+' && s[0] != '-')
    ensures var i := LeadingDigits(s);
      ParseI32(s) ==
        if s == [] then Err(Empty)
        else if DecimalValue(s[..i]) > I32_MAX then Err(PosOverflow)
        else if i < |s| then Err(InvalidDigit)
        else Ok(DecimalValue(s[..i]))
  {
    if s != [] {
      AccumulatePositive(s, 0, LeadingDigits(s));
    }
  }

  /** An unsigned text parses exactly when it is a non-empty digit string within i32, to its value. */
  lemma ParseUnsignedOk(s: string)
    requires s == [] || (s[0] != '+' && s[0] != '-')
    ensures ParseI32(s).Ok? <==> IsI32Decimal(s)
    ensures IsI32Decimal(s) ==> ParseI32(s) == Ok(DecimalValue(s))
  {
    ParseUnsigned(s);
    var i := LeadingDigits(s);
    if AllDigits(s) && s != [] {
      assert i == |s| && s[..i] == s;
    }
  }

  function DigitChar(v: nat): (c: char)
    requires v < 10
    ensures IsDigit(c) && DigitValue(c) == v
  {
    ('0' as int + v) as char
  }

  /** The decimal text of `n` (`n.to_string()`), the partner of the parser. */
  function ToDecimal(n: nat): (s: string)
    ensures s != [] && AllDigits(s)
    decreases n
  {
    if n < 10 then [DigitChar(n)] else ToDecimal(n / 10) + [DigitChar(n % 10)]
  }

  lemma {:induction false} DigitsValueAppend(d: string, acc: int, c: char)
    requires AllDigits(d) && IsDigit(c)
    ensures AllDigits(d + [c])
    ensures DigitsValue(d + [c], acc) == DigitsValue(d, acc) * 10 + DigitValue(c)
    decreases |d|
  {
    if d != [] {
      assert (d + [c])[1..] == d[1..] + [c];
      DigitsValueAppend(d[1..], acc * 10 + DigitValue(d[0]), c);
    }
  }

  /** Reading back the decimal text of `n` gives `n`. */
  lemma {:induction false} DecimalValueToDecimal(n: nat)
    ensures DecimalValue(ToDecimal(n)) == n
    decreases n
  {
    if n < 10 {
      var d := ToDecimal(n);
      assert d == [DigitChar(n)] && d[1..] == [];
      assert DigitsValue(d, 0) == DigitsValue([], DigitValue(d[0]));
    } else {
      DecimalValueToDecimal(n / 10);
      DigitsValueAppend(ToDecimal(n / 10), 0, DigitChar(n % 10));
    }
  }

  /** Every i32 survives being written out and parsed back, with or without a sign. */
  lemma ParseToDecimal(n: nat)
    ensures n <= I32_MAX ==> ParseI32(ToDecimal(n)) == Ok(n)
    ensures n <= I32_MAX ==> ParseI32(['+'] + ToDecimal(n)) == Ok(n)
    ensures n <= -I32_MIN ==> ParseI32(['-'] + ToDecimal(n)) == Ok(0 - n as int)
  {
    var d := ToDecimal(n);
    DecimalValueToDecimal(n);
    assert d[..|d|] == d;
    assert (['+'] + d)[1..] == d && (['-'] + d)[1..] == d;
    if n <= I32_MAX {
      AccumulatePositive(d, 0, |d|);
    }
    if n <= -I32_MIN {
      AccumulateNegative(d, 0, |d|);
    }
  }
}

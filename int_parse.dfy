/**
 * Rust's `str::parse` for the two integer types the decoder uses,
 * `i16` (the integer payload) and `usize` (the string length prefix),
 * over the raw bytes of the text, together with the grammar it accepts
 * and the canonical decimal rendering it inverts.
 *
 * The parser takes an optional single leading `+` (or `-`, for a signed
 * type) and then one or more ASCII digits, folding them left to right
 * with checked multiplication and addition (subtraction for a negative
 * number), so that overflow is reported at the first digit that leaves
 * the range of the type.
 */
module IntParse {
  import opened Bytes

  const PLUS: u8 := 43   // '+'
  const MINUS: u8 := 45  // '-'

  const I16_MIN: int := -0x8000
  const I16_MAX: int := 0x7FFF
  /** `usize::MAX` on a 64-bit target. */
  const USIZE_MAX: int := 0xFFFF_FFFF_FFFF_FFFF

  /** A Rust `i16`. */
  newtype i16 = x: int | -0x8000 <= x < 0x8000

  /** The kinds of Rust's `ParseIntError`. */
  datatype IntErrorKind = Empty | InvalidDigit | PosOverflow | NegOverflow

  datatype ParseResult = Parsed(value: int) | Failed(kind: IntErrorKind)

  // ---------------------------------------------------------------------
  // The grammar and its value, stated independently of the parser

  predicate AllDigits(s: seq<u8>) {
    forall i :: 0 <= i < |s| ==> IsDigit(s[i])
  }

  /** The value of a decimal numeral, most significant digit first. */
  function DigitsValue(s: seq<u8>): nat
    requires AllDigits(s)
  {
    if s == [] then 0
    else DigitsValue(s[..|s| - 1]) * 10 + DigitValue(s[|s| - 1])
  }

  /** Whether the text is a negative literal of a type that is `signed`. */
  predicate IsNegative(src: seq<u8>, signed: bool) {
    signed && |src| > 0 && src[0] == MINUS
  }

  /** The text with its one permitted leading sign removed. */
  function Magnitude(src: seq<u8>, signed: bool): (m: seq<u8>)
    ensures |m| <= |src|
  {
    if |src| > 0 && (src[0] == PLUS || IsNegative(src, signed)) then src[1..] else src
  }

  /** An optional sign (`-` only when `signed`) followed by one or more digits. */
  predicate IsLiteral(src: seq<u8>, signed: bool) {
    var m := Magnitude(src, signed);
    |m| > 0 && AllDigits(m)
  }

  function Signed(magnitude: nat, negative: bool): int {
    if negative then -(magnitude as int) else magnitude
  }

  function LiteralValue(src: seq<u8>, signed: bool): int
    requires IsLiteral(src, signed)
  {
    Signed(DigitsValue(Magnitude(src, signed)), IsNegative(src, signed))
  }

  // ---------------------------------------------------------------------
  // The parser

  /**
   * The checked left-to-right fold over `digits[i..]`, starting from the
   * accumulated value `acc`: each byte is first checked to be a digit,
   * then `acc * 10` and `acc * 10 ± digit` are checked against the range.
   */
  function Accumulate(digits: seq<u8>, i: nat, acc: int, negative: bool, min: int, max: int): (r: ParseResult)
    requires i <= |digits|
    requires min <= acc <= max
    ensures r.Parsed? ==> min <= r.value <= max
    ensures r.Failed? ==> r.kind != Empty
    decreases |digits| - i
  {
    if i == |digits| then Parsed(acc)
    else if !IsDigit(digits[i]) then Failed(InvalidDigit)
    else
      var overflow := if negative then NegOverflow else PosOverflow;
      var mul := acc * 10;
      if mul < min || max < mul then Failed(overflow)
      else
        var next := if negative then mul - DigitValue(digits[i]) else mul + DigitValue(digits[i]);
        if next < min || max < next then Failed(overflow)
        else Accumulate(digits, i + 1, next, negative, min, max)
  }

  /**
   * `<T as FromStr>::from_str` for an integer type `T` whose range is
   * `[min, max]`; `signed` says whether a leading `-` is a sign.
   */
  function ParseInt(src: seq<u8>, signed: bool, min: int, max: int): (r: ParseResult)
    requires min <= 0 <= max
    ensures r.Parsed? ==> min <= r.value <= max
    ensures r == Failed(Empty) <==> src == []
  {
    if src == [] then Failed(Empty)
    else if |src| == 1 && (src[0] == PLUS || src[0] == MINUS) then Failed(InvalidDigit)
    else if src[0] == PLUS then Accumulate(src[1..], 0, 0, false, min, max)
    else if signed && src[0] == MINUS then Accumulate(src[1..], 0, 0, true, min, max)
    else Accumulate(src, 0, 0, false, min, max)
  }

  /** `parse::<i16>()`. */
  function ParseI16(src: seq<u8>): (r: ParseResult)
    ensures r.Parsed? ==> I16_MIN <= r.value <= I16_MAX
  {
    ParseInt(src, true, I16_MIN, I16_MAX)
  }

  /** `parse::<usize>()`. */
  function ParseUsize(src: seq<u8>): (r: ParseResult)
    ensures r.Parsed? ==> 0 <= r.value <= USIZE_MAX
  {
    ParseInt(src, false, 0, USIZE_MAX)
  }

  // ---------------------------------------------------------------------
  // The parser accepts exactly the grammar, with the grammar's value

  /** A longer prefix of a numeral never has a smaller value. */
  lemma {:induction false} DigitsValuePrefixMonotone(s: seq<u8>, j: nat, k: nat)
    requires AllDigits(s) && j <= k <= |s|
    ensures AllDigits(s[..j]) && AllDigits(s[..k])
    ensures DigitsValue(s[..j]) <= DigitsValue(s[..k])
    decreases k - j
  {
    assert AllDigits(s[..j]) && AllDigits(s[..k]) by {
      assert forall i :: 0 <= i < j ==> s[..j][i] == s[i];
      assert forall i :: 0 <= i < k ==> s[..k][i] == s[i];
    }
    if j < k {
      DigitsValuePrefixMonotone(s, j, k - 1);
      assert s[..k][..k - 1] == s[..k - 1];
    }
  }

  /** On digits the fold computes the signed value of the numeral, or overflows. */
  lemma {:induction false} AccumulateDigits(ds: seq<u8>, i: nat, negative: bool, min: int, max: int)
    requires min <= 0 <= max && AllDigits(ds) && i <= |ds|
    requires AllDigits(ds[..i]) && min <= Signed(DigitsValue(ds[..i]), negative) <= max
    ensures var v := Signed(DigitsValue(ds), negative);
      Accumulate(ds, i, Signed(DigitsValue(ds[..i]), negative), negative, min, max)
      == if min <= v <= max then Parsed(v)
         else Failed(if negative then NegOverflow else PosOverflow)
    decreases |ds| - i
  {
    var acc := Signed(DigitsValue(ds[..i]), negative);
    if i == |ds| {
      assert ds[..i] == ds;
    } else {
      DigitsValuePrefixMonotone(ds, i + 1, |ds|);
      assert ds[..i + 1][..i] == ds[..i];
      assert ds[..|ds|] == ds;
      var d := DigitValue(ds[i]);
      var next := Signed(DigitsValue(ds[..i + 1]), negative);
      assert DigitsValue(ds[..i + 1]) == DigitsValue(ds[..i]) * 10 + d;
      assert next == (if negative then acc * 10 - d else acc * 10 + d);
      if min <= next <= max {
        AccumulateDigits(ds, i + 1, negative, min, max);
      }
    }
  }

  /** A non-digit in what remains makes the fold fail. */
  lemma {:induction false} AccumulateNonDigit(ds: seq<u8>, i: nat, acc: int, negative: bool, min: int, max: int)
    requires i <= |ds| && min <= acc <= max
    requires !AllDigits(ds[i..])
    ensures Accumulate(ds, i, acc, negative, min, max).Failed?
    decreases |ds| - i
  {
    if i < |ds| && IsDigit(ds[i]) {
      var mul := acc * 10;
      var next := if negative then mul - DigitValue(ds[i]) else mul + DigitValue(ds[i]);
      if min <= mul <= max && min <= next <= max {
        assert ds[i + 1..] == ds[i..][1..];
        AccumulateNonDigit(ds, i + 1, next, negative, min, max);
      }
    }
  }

  /** The fold from the start of a sequence of digits. */
  lemma AccumulateFromStart(ds: seq<u8>, negative: bool, min: int, max: int)
    requires min <= 0 <= max
    ensures AllDigits(ds) ==>
      var v := Signed(DigitsValue(ds), negative);
      Accumulate(ds, 0, 0, negative, min, max)
      == if min <= v <= max then Parsed(v)
         else Failed(if negative then NegOverflow else PosOverflow)
    ensures !AllDigits(ds) ==> Accumulate(ds, 0, 0, negative, min, max).Failed?
  {
    assert ds[..0] == [] && ds[0..] == ds;
    if AllDigits(ds) {
      AccumulateDigits(ds, 0, negative, min, max);
    } else {
      AccumulateNonDigit(ds, 0, 0, negative, min, max);
    }
  }

  /**
   * `parse` succeeds exactly on the literals whose value is in range, and
   * then yields that value; a literal out of range is reported as an
   * overflow in the direction of its sign.
   */
  lemma ParseIntIsLiteral(src: seq<u8>, signed: bool, min: int, max: int)
    requires min <= 0 <= max
    ensures ParseInt(src, signed, min, max).Parsed?
        <==> IsLiteral(src, signed) && min <= LiteralValue(src, signed) <= max
    ensures IsLiteral(src, signed) && min <= LiteralValue(src, signed) <= max ==>
      ParseInt(src, signed, min, max) == Parsed(LiteralValue(src, signed))
    ensures IsLiteral(src, signed) && LiteralValue(src, signed) > max ==>
      ParseInt(src, signed, min, max) == Failed(PosOverflow)
    ensures IsLiteral(src, signed) && LiteralValue(src, signed) < min ==>
      ParseInt(src, signed, min, max) == Failed(NegOverflow)
  {
    if src != [] && !(|src| == 1 && (src[0] == PLUS || src[0] == MINUS)) {
      var m := Magnitude(src, signed);
      AccumulateFromStart(m, IsNegative(src, signed), min, max);
      if IsLiteral(src, signed) && !IsNegative(src, signed) {
        assert LiteralValue(src, signed) >= 0;
      }
    }
  }

  /** `parse::<usize>` never accepts a leading minus sign. */
  lemma ParseUsizeRejectsMinus(src: seq<u8>)
    requires |src| > 0 && src[0] == MINUS
    ensures ParseUsize(src).Failed?
  {
    ParseIntIsLiteral(src, false, 0, USIZE_MAX);
  }

  // ---------------------------------------------------------------------
  // Canonical decimal rendering, the inverse of parsing

  /** The decimal numeral of `n` without leading zeros (`"0"` for zero). */
  function NatDecimal(n: nat): seq<u8>
  {
    if n < 10 then [DigitByte(n)] else NatDecimal(n / 10) + [DigitByte(n % 10)]
  }

  /** The decimal text of `n`, with `-` for a negative number only. */
  function Decimal(n: int): seq<u8>
  {
    if n < 0 then [MINUS] + NatDecimal(-n) else NatDecimal(n)
  }

  lemma {:induction false} NatDecimalValue(n: nat)
    ensures |NatDecimal(n)| > 0 && AllDigits(NatDecimal(n))
    ensures DigitsValue(NatDecimal(n)) == n
  {
    if n >= 10 {
      NatDecimalValue(n / 10);
      var s := NatDecimal(n);
      assert s[..|s| - 1] == NatDecimal(n / 10);
    }
  }

  /** Every integer's decimal text is a signed literal denoting it. */
  lemma DecimalIsLiteral(n: int)
    ensures IsLiteral(Decimal(n), true) && LiteralValue(Decimal(n), true) == n
  {
    NatDecimalValue(if n < 0 then -n else n);
    if n < 0 {
      assert Magnitude(Decimal(n), true) == NatDecimal(-n);
    }
  }

  /** The non-negative decimal text is an unsigned literal. */
  lemma NatDecimalIsUnsignedLiteral(n: nat)
    ensures IsLiteral(NatDecimal(n), false) && LiteralValue(NatDecimal(n), false) == n
  {
    NatDecimalValue(n);
  }

  /** Round trip: `n.to_string().parse::<i16>() == Ok(n)`. */
  lemma ParseI16Decimal(n: int)
    requires I16_MIN <= n <= I16_MAX
    ensures ParseI16(Decimal(n)) == Parsed(n)
  {
    DecimalIsLiteral(n);
    ParseIntIsLiteral(Decimal(n), true, I16_MIN, I16_MAX);
  }

  /** Round trip: `n.to_string().parse::<usize>() == Ok(n)`. */
  lemma ParseUsizeDecimal(n: nat)
    requires n <= USIZE_MAX
    ensures ParseUsize(NatDecimal(n)) == Parsed(n)
  {
    NatDecimalIsUnsignedLiteral(n);
    ParseIntIsLiteral(NatDecimal(n), false, 0, USIZE_MAX);
  }

  // ---------------------------------------------------------------------
  // Leading zeros

  function Zeros(k: nat): (z: seq<u8>)
    ensures |z| == k && AllDigits(z)
  {
    if k == 0 then [] else Zeros(k - 1) + [ASCII_ZERO]
  }

  /** Leading zeros do not change the value of a numeral. */
  lemma {:induction false} LeadingZerosValue(k: nat, ds: seq<u8>)
    requires AllDigits(ds)
    ensures AllDigits(Zeros(k) + ds)
    ensures DigitsValue(Zeros(k) + ds) == DigitsValue(ds)
    decreases |ds|
  {
    var s := Zeros(k) + ds;
    assert AllDigits(s) by {
      assert forall i :: 0 <= i < |s| ==> s[i] == (if i < k then Zeros(k)[i] else ds[i - k]);
    }
    if ds == [] {
      assert s == Zeros(k);
      ZerosValue(k);
    } else {
      var init := ds[..|ds| - 1];
      LeadingZerosValue(k, init);
      assert s[..|s| - 1] == Zeros(k) + init;
    }
  }

  lemma {:induction false} ZerosValue(k: nat)
    ensures DigitsValue(Zeros(k)) == 0
  {
    if k > 0 {
      assert Zeros(k)[..k - 1] == Zeros(k - 1);
      ZerosValue(k - 1);
    }
  }

  /**
   * `parse::<i16>` normalises leading zeros and negative zero: a sign,
   * any number of zeros and the decimal text of `n` parse as `±n`.
   */
  lemma ParseI16LeadingZeros(k: nat, n: nat, negative: bool)
    requires Signed(n, negative) >= I16_MIN && Signed(n, negative) <= I16_MAX
    ensures ParseI16((if negative then [MINUS] else []) + Zeros(k) + NatDecimal(n)) == Parsed(Signed(n, negative))
  {
    var src := (if negative then [MINUS] else []) + Zeros(k) + NatDecimal(n);
    NatDecimalValue(n);
    LeadingZerosValue(k, NatDecimal(n));
    assert Magnitude(src, true) == Zeros(k) + NatDecimal(n);
    ParseIntIsLiteral(src, true, I16_MIN, I16_MAX);
  }
}

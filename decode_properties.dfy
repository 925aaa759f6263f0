/**
 * What `decode` does on each shape of token, stated over the grammar of
 * the literals rather than over the parser, with arbitrary bytes after
 * the token to show that they are never read; and the input/output pairs
 * that the source's unit tests fix.
 */
module DecodeProperties {
  import opened Bytes
  import opened IntParse
  import opened Utf8
  import opened Bencode

  predicate NoByte(s: seq<u8>, b: u8) {
    forall j :: 0 <= j < |s| ==> s[j] != b
  }

  /** A signed literal that fits in an `i16`. */
  predicate IsI16Literal(span: seq<u8>) {
    IsLiteral(span, true) && I16_MIN <= LiteralValue(span, true) <= I16_MAX
  }

  /** An unsigned literal that fits in a `usize`. */
  predicate IsUsizeLiteral(prefix: seq<u8>) {
    IsLiteral(prefix, false) && LiteralValue(prefix, false) <= USIZE_MAX
  }

  // ---------------------------------------------------------------------
  // Integers

  /**
   * `i`, a span without `e`, `e`, then anything: an empty span is the
   * empty-integer error, an `i16` literal is its value, and any other
   * span is the ill-formatted-integer error.
   */
  lemma IntegerToken(span: seq<u8>, tail: seq<u8>)
    requires NoByte(span, DELIM_END)
    ensures var r := Decoded([INT_DELIM_BEGIN] + span + [DELIM_END] + tail);
      && (span == [] ==> r == Err(EMPTY_INTEGER))
      && (span != [] && IsI16Literal(span) ==> r == Ok(Int(LiteralValue(span, true) as i16)))
      && (span != [] && !IsI16Literal(span) ==> r == Err(ILL_FORMATTED_INTEGER))
  {
    var input := [INT_DELIM_BEGIN] + span + [DELIM_END] + tail;
    FindIsFirst(input, DELIM_END, 1, |span| + 1);
    assert input[1..|span| + 1] == span;
    ParseIntIsLiteral(span, true, I16_MIN, I16_MAX);
  }

  /** `i` followed by bytes none of which is `e` runs off the end. */
  lemma UnterminatedIntegerPanics(rest: seq<u8>)
    requires NoByte(rest, DELIM_END)
    ensures Decoded([INT_DELIM_BEGIN] + rest) == Panic(UnterminatedInteger)
  {
    var input := [INT_DELIM_BEGIN] + rest;
    FindIsFirst(input, DELIM_END, 1, |input|);
  }

  lemma {:induction false} NatDecimalHasNoEnd(n: nat)
    ensures NoByte(NatDecimal(n), DELIM_END)
  {
    NatDecimalValue(n);
  }

  /** Every `i16` survives `i`, its decimal text, `e`, whatever follows. */
  lemma IntegerRoundTrip(n: i16, tail: seq<u8>)
    ensures Decoded([INT_DELIM_BEGIN] + Decimal(n as int) + [DELIM_END] + tail) == Ok(Int(n))
  {
    var span := Decimal(n as int);
    NatDecimalHasNoEnd(if n < 0 then -(n as int) else n as int);
    assert NoByte(span, DELIM_END);
    DecimalIsLiteral(n as int);
    IntegerToken(span, tail);
  }

  /**
   * Leading zeros (after an optional `-`) are accepted and dropped, and
   * negative zero is zero: `i042e` is 42 and `i-0e` is 0.
   */
  lemma LeadingZerosNormalised(k: nat, n: nat, negative: bool, tail: seq<u8>)
    requires I16_MIN <= Signed(n, negative) <= I16_MAX
    ensures
      var span := (if negative then [MINUS] else []) + Zeros(k) + NatDecimal(n);
      Decoded([INT_DELIM_BEGIN] + span + [DELIM_END] + tail) == Ok(Int(Signed(n, negative) as i16))
  {
    var span := (if negative then [MINUS] else []) + Zeros(k) + NatDecimal(n);
    NatDecimalHasNoEnd(n);
    assert NoByte(span, DELIM_END) by {
      assert forall j :: 0 <= j < |span| ==> span[j] == MINUS || IsDigit(span[j]) || span[j] in NatDecimal(n);
    }
    ParseI16LeadingZeros(k, n, negative);
    ParseIntIsLiteral(span, true, I16_MIN, I16_MAX);
    IntegerToken(span, tail);
  }

  /**
   * A span with a byte that is neither a digit nor the one leading sign
   * is rejected.
   */
  lemma IntegerRejectsNonDigit(span: seq<u8>, j: nat, tail: seq<u8>)
    requires NoByte(span, DELIM_END)
    requires j < |span| && !IsDigit(span[j])
    requires !(j == 0 && (span[0] == PLUS || span[0] == MINUS))
    ensures Decoded([INT_DELIM_BEGIN] + span + [DELIM_END] + tail) == Err(ILL_FORMATTED_INTEGER)
  {
    var m := Magnitude(span, true);
    if m != span {
      assert m[j - 1] == span[j];
    }
    IntegerToken(span, tail);
  }

  /** A literal outside the `i16` range is rejected. */
  lemma IntegerRejectsOverflow(span: seq<u8>, tail: seq<u8>)
    requires NoByte(span, DELIM_END)
    requires IsLiteral(span, true)
    requires LiteralValue(span, true) < I16_MIN || I16_MAX < LiteralValue(span, true)
    ensures Decoded([INT_DELIM_BEGIN] + span + [DELIM_END] + tail) == Err(ILL_FORMATTED_INTEGER)
  {
    IntegerToken(span, tail);
  }

  // ---------------------------------------------------------------------
  // Strings

  /** Whether `prefix` + `:` reaches the string branch. */
  predicate SelectsString(prefix: seq<u8>) {
    prefix == [] ||
    (prefix[0] != INT_DELIM_BEGIN && prefix[0] != LIST_DELIM_BEGIN && prefix[0] != DICT_DELIM_BEGIN)
  }

  /**
   * A prefix without `:`, the first `:`, then `rest`: an unsigned length
   * `L` with at least `L` bytes after the colon gives exactly those `L`
   * bytes (a panic if they are not UTF-8); a prefix that is not an
   * unsigned decimal, or fewer than `L` bytes, is the invalid-length error.
   */
  lemma StringToken(prefix: seq<u8>, rest: seq<u8>)
    requires NoByte(prefix, COLON_DELIM) && SelectsString(prefix)
    ensures var r := Decoded(prefix + [COLON_DELIM] + rest);
      && (!IsUsizeLiteral(prefix) ==> r == Err(INVALID_STRING_LENGTH))
      && (IsUsizeLiteral(prefix) && LiteralValue(prefix, false) > |rest| ==> r == Err(INVALID_STRING_LENGTH))
      && (IsUsizeLiteral(prefix) && LiteralValue(prefix, false) <= |rest| ==>
            var payload := rest[..LiteralValue(prefix, false)];
            r == if ValidUtf8(payload) then Ok(Str(payload)) else Panic(InvalidUtf8))
  {
    var input := prefix + [COLON_DELIM] + rest;
    FindIsFirst(input, COLON_DELIM, 0, |prefix|);
    assert input[..|prefix|] == prefix;
    assert input[|prefix| + 1..] == rest;
    ParseIntIsLiteral(prefix, false, 0, USIZE_MAX);
  }

  /** A decoded string has exactly the length its prefix declares. */
  lemma StringLengthIsPrefix(prefix: seq<u8>, rest: seq<u8>)
    requires NoByte(prefix, COLON_DELIM) && SelectsString(prefix)
    requires Decoded(prefix + [COLON_DELIM] + rest).Ok?
    ensures IsUsizeLiteral(prefix) && LiteralValue(prefix, false) <= |rest|
    ensures Decoded(prefix + [COLON_DELIM] + rest).value == Str(rest[..LiteralValue(prefix, false)])
    ensures |Decoded(prefix + [COLON_DELIM] + rest).value.bytes| == LiteralValue(prefix, false)
  {
    StringToken(prefix, rest);
  }

  /** The well-formed case of StringToken. */
  lemma StringTokenOk(prefix: seq<u8>, rest: seq<u8>, len: nat)
    requires NoByte(prefix, COLON_DELIM) && SelectsString(prefix)
    requires IsUsizeLiteral(prefix) && LiteralValue(prefix, false) == len <= |rest|
    requires ValidUtf8(rest[..len])
    ensures Decoded(prefix + [COLON_DELIM] + rest) == Ok(Str(rest[..len]))
  {
    StringToken(prefix, rest);
  }

  /** Every UTF-8 byte string survives its length, `:`, itself, whatever follows. */
  lemma StringRoundTrip(s: seq<u8>, tail: seq<u8>)
    requires ValidUtf8(s) && |s| <= USIZE_MAX
    ensures Decoded(NatDecimal(|s|) + [COLON_DELIM] + (s + tail)) == Ok(Str(s))
  {
    var prefix := NatDecimal(|s|);
    NatDecimalIsUnsignedLiteral(|s|);
    NatDecimalValue(|s|);
    assert NoByte(prefix, COLON_DELIM);
    assert (s + tail)[..|s|] == s;
    StringTokenOk(prefix, s + tail, |s|);
  }

  /**
   * A length prefix with a byte that is neither a digit nor a leading `+`
   * is rejected, whatever follows: `-1:`, `1x:` and the empty prefix.
   */
  lemma StringRejectsBadPrefix(prefix: seq<u8>, rest: seq<u8>)
    requires NoByte(prefix, COLON_DELIM) && SelectsString(prefix)
    requires prefix == [] || exists j :: 0 <= j < |prefix| && !IsDigit(prefix[j]) && !(j == 0 && prefix[0] == PLUS)
    ensures Decoded(prefix + [COLON_DELIM] + rest) == Err(INVALID_STRING_LENGTH)
  {
    if prefix != [] {
      var j :| 0 <= j < |prefix| && !IsDigit(prefix[j]) && !(j == 0 && prefix[0] == PLUS);
      var m := Magnitude(prefix, false);
      if m != prefix {
        assert m[j - 1] == prefix[j];
      }
    }
    StringToken(prefix, rest);
  }

  /** A string-branch input with no `:` at all runs off the end. */
  lemma MissingColonPanics(input: seq<u8>)
    requires input != [] && SelectsString(input)
    requires NoByte(input, COLON_DELIM)
    ensures Decoded(input) == Panic(MissingColon)
  {
    FindIsFirst(input, COLON_DELIM, 0, |input|);
  }

  // ---------------------------------------------------------------------
  // The source's unit tests

  // The integer and string cases of the source's unit tests, one lemma
  // each (instantiations of the lemmas above).

  /** `i42e` */
  lemma TestInt42()
    ensures Decoded(Ascii("i42e")) == Ok(Int(42))
  {
    assert Ascii("i42e") == [INT_DELIM_BEGIN] + Decimal(42) + [DELIM_END] + [];
    IntegerRoundTrip(42, []);
  }

  /** `i0e` */
  lemma TestInt0()
    ensures Decoded(Ascii("i0e")) == Ok(Int(0))
  {
    assert Ascii("i0e") == [INT_DELIM_BEGIN] + Decimal(0) + [DELIM_END] + [];
    IntegerRoundTrip(0, []);
  }

  /** `i-42e` */
  lemma TestIntMinus42()
    ensures Decoded(Ascii("i-42e")) == Ok(Int(-42))
  {
    assert Ascii("i-42e") == [INT_DELIM_BEGIN] + Decimal(-42) + [DELIM_END] + [];
    IntegerRoundTrip(-42, []);
  }

  /** `i042e` */
  lemma TestIntLeadingZero()
    ensures Decoded(Ascii("i042e")) == Ok(Int(42))
  {
    assert Ascii("i042e") == [INT_DELIM_BEGIN] + ([] + Zeros(1) + NatDecimal(42)) + [DELIM_END] + [];
    LeadingZerosNormalised(1, 42, false, []);
  }

  /** `i-0e` */
  lemma TestIntNegativeZero()
    ensures Decoded(Ascii("i-0e")) == Ok(Int(0))
  {
    assert Ascii("i-0e") == [INT_DELIM_BEGIN] + ([MINUS] + Zeros(0) + NatDecimal(0)) + [DELIM_END] + [];
    LeadingZerosNormalised(0, 0, true, []);
  }

  /** `ie` */
  lemma TestIntEmpty()
    ensures Decoded(Ascii("ie")) == Err(EMPTY_INTEGER)
  {
    assert Ascii("ie") == [INT_DELIM_BEGIN] + [] + [DELIM_END] + [];
    IntegerToken([], []);
  }

  /** `i32be` */
  lemma TestIntNonDigit()
    ensures Decoded(Ascii("i32be")) == Err(ILL_FORMATTED_INTEGER)
  {
    assert Ascii("i32be") == [INT_DELIM_BEGIN] + Ascii("32b") + [DELIM_END] + [];
    IntegerRejectsNonDigit(Ascii("32b"), 2, []);
  }

  /** `4:spam` */
  lemma TestStrSpam()
    ensures Decoded(Ascii("4:spam")) == Ok(Str(Ascii("spam")))
  {
    AsciiIsValidUtf8(Ascii("spam"));
    assert Ascii("4:spam") == NatDecimal(4) + [COLON_DELIM] + (Ascii("spam") + []);
    StringRoundTrip(Ascii("spam"), []);
  }

  /** `0:` */
  lemma TestStrEmpty()
    ensures Decoded(Ascii("0:")) == Ok(Str([]))
  {
    assert Ascii("0:") == NatDecimal(0) + [COLON_DELIM] + ([] + []);
    StringRoundTrip([], []);
  }

  /** `5:hello` */
  lemma TestStrHello()
    ensures Decoded(Ascii("5:hello")) == Ok(Str(Ascii("hello")))
  {
    AsciiIsValidUtf8(Ascii("hello"));
    assert Ascii("5:hello") == NatDecimal(5) + [COLON_DELIM] + (Ascii("hello") + []);
    StringRoundTrip(Ascii("hello"), []);
  }

  /** `4:spa` */
  lemma TestStrTooShort()
    ensures Decoded(Ascii("4:spa")) == Err(INVALID_STRING_LENGTH)
  {
    assert Ascii("4:spa") == NatDecimal(4) + [COLON_DELIM] + Ascii("spa");
    NatDecimalIsUnsignedLiteral(4);
    NatDecimalValue(4);
    StringToken(NatDecimal(4), Ascii("spa"));
  }

  /** `-1:spam` */
  lemma TestStrNegativeLength()
    ensures Decoded(Ascii("-1:spam")) == Err(INVALID_STRING_LENGTH)
  {
    assert Ascii("-1:spam") == [MINUS, DigitByte(1)] + [COLON_DELIM] + Ascii("spam");
    StringRejectsBadPrefix([MINUS, DigitByte(1)], Ascii("spam"));
  }

  /** `1x:a` */
  lemma TestStrBadLength()
    ensures Decoded(Ascii("1x:a")) == Err(INVALID_STRING_LENGTH)
  {
    assert Ascii("1x:a") == Ascii("1x") + [COLON_DELIM] + Ascii("a");
    assert !IsDigit(Ascii("1x")[1]);
    StringRejectsBadPrefix(Ascii("1x"), Ascii("a"));
  }

  /** A payload that is not UTF-8 is where `decode` panics: `1:` then byte 0xFF. */
  lemma InvalidUtf8Panics()
    ensures Decoded(NatDecimal(1) + [COLON_DELIM, 0xFF]) == Panic(InvalidUtf8)
  {
    NatDecimalIsUnsignedLiteral(1);
    NatDecimalValue(1);
    assert [0xFF][..1] == [0xFF];
    assert !ValidUtf8([0xFF]);
    assert NatDecimal(1) + [COLON_DELIM, 0xFF] == NatDecimal(1) + [COLON_DELIM] + [0xFF];
    StringToken(NatDecimal(1), [0xFF]);
  }
}

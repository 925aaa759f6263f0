# bencode-rs `decode`, modelled in Dafny

This project models `decode` from the Rust crate bencode-rs (`src/lib.rs`). The
function decodes one Bencode value, the format of the "bencoding" section of
BitTorrent's BEP 3, from a byte slice. It looks at the first byte:

- `i` selects the integer branch. It collects the bytes after the `i` up to the
  first `e`. An empty span is an error. Otherwise the span goes to Rust's
  `parse::<i16>()`.
- `l` and `d` select the list and dictionary branches. Both are stubs that
  return `Ok(BValue::None)`.
- Any other byte selects the string branch. It scans from index 0 to the first
  `:` and parses the bytes before it with `parse::<usize>()`. It then takes
  exactly that many bytes after the colon and converts them with
  `String::from_utf8(..).unwrap()`.

A call to `decode` can end in one of three ways: `Ok(value)`, `Err(message)`,
or a panic. `Bencode.Outcome` models all three. The error messages are the
source's exact strings. A panic records where it happens:

- `input[0]` on empty input;
- running off the end while looking for `e`;
- running off the end while looking for `:`;
- the `unwrap` on a payload that is not UTF-8.

Modules:

- `Bytes` (bytes.dfy): the `u8` type, ASCII digits, and `Find`, the scan to the
  first occurrence of a byte.
- `IntParse` (int_parse.dfy): Rust's `FromStr` for `i16` and `usize` on the
  bytes of the text, including the `ParseIntError` kinds. It also holds the
  grammar that parser accepts (an optional sign, then one or more digits) and
  the canonical decimal rendering that parsing inverts.
- `Utf8` (utf8.dfy): well-formed UTF-8 as defined by Table 3-7 of section 3.9
  of the Unicode Standard. This is the condition under which
  `String::from_utf8` succeeds.
- `Bencode` (decode.dfy): `BValue`, `Outcome`, the specification function
  `Decoded`, and `Decode`. `Decode` is the imperative method. Its integer loop
  pushes bytes into a buffer, its string loop steps an index to the colon, and
  it is proved equal to `Decoded`.
- `DecodeProperties` (decode_properties.dfy): what each kind of token decodes
  to. These lemmas are stated over the grammar, not over the parser. Each one
  allows arbitrary bytes after the token, which shows those bytes are never
  read. The module also holds round trips through the canonical rendering and
  the integer and string cases of the source's unit tests.

Where BEP 3 and the code disagree, the model follows the code:

- The code accepts leading zeros (`i042e` gives 42).
- It accepts negative zero (`i-0e` gives 0).
- It accepts a `+` sign in both integers and length prefixes.
- Integers are limited to the `i16` range.
- Every first byte other than `i`, `l` and `d`, not just a digit, selects the
  string branch.
- Malformed input, such as a missing terminator, panics instead of returning
  an error.

## Model

| member | source | states |
|---|---|---|
| `Bytes.Find` | src/lib.rs:34-37 | the index where `while input[idx] != b { idx += 1 }` stops (also the scan at lines 59-61): the first occurrence of `b` at or after the start, or the length of the input when there is none, meaning the scan would read past the end |
| `IntParse.Accumulate` | src/lib.rs:44 | the checked digit-by-digit fold of `parse`: it never yields a value outside `[min, max]`, and it never reports `Empty` |
| `IntParse.ParseInt` | src/lib.rs:44 | `from_str` for an integer type with range `[min, max]`: a parsed value is always in range, and the `Empty` error happens exactly when the text is empty |
| `IntParse.ParseI16` | src/lib.rs:44 | `parse::<i16>()`: every parsed value lies in `[-32768, 32767]` |
| `IntParse.ParseUsize` | src/lib.rs:63 | `parse::<usize>()`: every parsed value lies in `[0, 2^64-1]` |
| `IntParse.AccumulateDigits` | src/lib.rs:44 | on a sequence of digits the fold yields the numeral's signed value when that value is in range, and otherwise fails with `PosOverflow` or `NegOverflow` according to the sign |
| `IntParse.AccumulateNonDigit` | src/lib.rs:44 | a non-digit anywhere in the rest of the text makes the fold fail |
| `IntParse.ParseIntIsLiteral` | src/lib.rs:44 | in both directions, `parse` succeeds exactly on an optional sign followed by one or more digits whose value is in range, and then returns that value; a literal out of range fails with the overflow kind matching its sign |
| `IntParse.ParseUsizeRejectsMinus` | src/lib.rs:63 | a length prefix that starts with `-` never parses as `usize` |
| `IntParse.NatDecimalValue` | src/lib.rs:44 | the canonical decimal rendering of `n` is a non-empty sequence of digits whose value is `n` |
| `IntParse.DecimalIsLiteral` | src/lib.rs:44 | the decimal text of any integer, with `-` only when negative, is a signed literal denoting that integer |
| `IntParse.NatDecimalIsUnsignedLiteral` | src/lib.rs:63 | the decimal text of a natural number is an unsigned literal denoting it |
| `IntParse.ParseI16Decimal` | src/lib.rs:44 | round trip: for every `n` in the `i16` range, parsing the decimal text of `n` as `i16` gives `n` |
| `IntParse.ParseUsizeDecimal` | src/lib.rs:63 | round trip: for every `n` up to `usize::MAX`, parsing the decimal text of `n` as `usize` gives `n` |
| `IntParse.LeadingZerosValue` | src/lib.rs:44 | prepending any number of `0` digits does not change a numeral's value |
| `IntParse.ZerosValue` | src/lib.rs:44 | a run of `0` digits has value zero |
| `IntParse.ParseI16LeadingZeros` | src/lib.rs:44 | `parse::<i16>` normalises: an optional `-`, any number of zeros and the decimal text of `n` parse as `n` or `-n`; with `n = 0` and `-`, negative zero gives 0 |
| `Utf8.LeadWidth` | src/lib.rs:67 | the width of the well-formed character that starts the bytes (0 if none) is at most 4 and at most the length, and it is 1 exactly for an ASCII byte |
| `Utf8.AsciiIsValidUtf8` | src/lib.rs:67 | bytes that are all ASCII pass `String::from_utf8` |
| `Bencode.IntegerOutcome` | src/lib.rs:39-46 | the integer branch after the scan: it yields an `Int` or one of the two integer error messages and never panics; the empty-integer message comes exactly from an empty span |
| `Bencode.StringOutcome` | src/lib.rs:62-69 | the string branch after the scan: a result is a `Str` whose bytes are a prefix of what follows the colon and are valid UTF-8; every error is the invalid-length message; the only panic is the UTF-8 `unwrap` |
| `Bencode.Decoded` | src/lib.rs:21-72 | `decode` as a function of the input: it panics at `input[0]` exactly when the input is empty; a first byte of `l` or `d` gives `Ok(None)` whatever follows; a decoded string is strictly shorter than the input |
| `Bencode.Decode` | src/lib.rs:21-72 | the imperative `decode`, with its loops over the index and the pushed digit buffer, returns exactly `Decoded(input)` on every input |
| `DecodeProperties.IntegerToken` | src/lib.rs:26-46 | `i`, a span without `e`, `e`, then any bytes: an empty span gives the empty-integer error; an `i16` literal gives `Int` of its value; any other span gives the ill-formatted-integer error |
| `DecodeProperties.UnterminatedIntegerPanics` | src/lib.rs:34 | `i` followed by bytes that contain no `e` panics at the scan |
| `DecodeProperties.NatDecimalHasNoEnd` | src/lib.rs:34 | a decimal numeral never contains the terminator `e`, so the scan stops at the `e` that follows it |
| `DecodeProperties.IntegerRoundTrip` | src/lib.rs:26-46 | for every `n` in the `i16` range, `i`, the decimal text of `n`, `e`, then any bytes decodes to `Ok(Int(n))` |
| `DecodeProperties.LeadingZerosNormalised` | src/lib.rs:44 | `i`, an optional `-`, any number of zeros, the decimal text of `n`, `e` decodes to `Int(n)` or `Int(-n)`: leading zeros are accepted and dropped, and `-0` is 0 |
| `DecodeProperties.IntegerRejectsNonDigit` | src/lib.rs:44 | a span with a byte that is neither a digit nor the single leading sign gives the ill-formatted-integer error |
| `DecodeProperties.IntegerRejectsOverflow` | src/lib.rs:44 | a signed literal outside `[-32768, 32767]` gives the ill-formatted-integer error |
| `DecodeProperties.StringToken` | src/lib.rs:56-70 | a prefix without `:` that selects the string branch, the colon, then `rest`: a prefix that is not an unsigned literal up to `usize::MAX` gives the invalid-length error; fewer than `L` bytes after the colon give the invalid-length error; otherwise the result is exactly the first `L` bytes of `rest` if they are UTF-8, and a panic if they are not |
| `DecodeProperties.StringTokenOk` | src/lib.rs:56-70 | a well-formed length `L` followed by at least `L` bytes that start with `L` bytes of UTF-8 decodes to `Str` of those `L` bytes, whatever follows them |
| `DecodeProperties.StringLengthIsPrefix` | src/lib.rs:63-69 | whenever a string token decodes to `Ok`, the prefix is an unsigned literal `L`, and the value is a `Str` of exactly the `L` bytes after the first colon, so its length is `L` |
| `DecodeProperties.StringRoundTrip` | src/lib.rs:56-70 | every UTF-8 byte string `s` of at most `usize::MAX` bytes, written as its decimal length, `:`, `s`, then any bytes, decodes to `Ok(Str(s))` |
| `DecodeProperties.StringRejectsBadPrefix` | src/lib.rs:62-63 | an empty length prefix, or one that holds a byte other than a digit or a leading `+` (such as `-1` or `1x`), gives the invalid-length error whatever follows, and never a panic |
| `DecodeProperties.MissingColonPanics` | src/lib.rs:59 | an input that selects the string branch and contains no `:` panics at the scan |
| `DecodeProperties.InvalidUtf8Panics` | src/lib.rs:67 | `1:` followed by the byte 0xFF panics at the UTF-8 `unwrap` |
| `DecodeProperties.TestInt42` | src/lib.rs:82 | `i42e` decodes to `Int(42)` |
| `DecodeProperties.TestInt0` | src/lib.rs:83 | `i0e` decodes to `Int(0)` |
| `DecodeProperties.TestIntMinus42` | src/lib.rs:84 | `i-42e` decodes to `Int(-42)` |
| `DecodeProperties.TestIntLeadingZero` | src/lib.rs:87 | `i042e` decodes to `Int(42)` |
| `DecodeProperties.TestIntNegativeZero` | src/lib.rs:88 | `i-0e` decodes to `Int(0)` |
| `DecodeProperties.TestIntEmpty` | src/lib.rs:89 | `ie` gives the empty-integer error |
| `DecodeProperties.TestIntNonDigit` | src/lib.rs:90 | `i32be` gives the ill-formatted-integer error |
| `DecodeProperties.TestStrSpam` | src/lib.rs:96 | `4:spam` decodes to `Str("spam")` |
| `DecodeProperties.TestStrEmpty` | src/lib.rs:97 | `0:` decodes to the empty `Str` |
| `DecodeProperties.TestStrHello` | src/lib.rs:98-101 | `5:hello` decodes to `Str("hello")` |
| `DecodeProperties.TestStrTooShort` | src/lib.rs:104 | `4:spa` gives the invalid-length error |
| `DecodeProperties.TestStrNegativeLength` | src/lib.rs:105 | `-1:spam` gives the invalid-length error |
| `DecodeProperties.TestStrBadLength` | src/lib.rs:106 | `1x:a` gives the invalid-length error |

## Left out

- List and dictionary decoding. Both branches (src/lib.rs:48-55) are stubs that
  return `BValue::None`, and the model has them do the same. The tests at
  src/lib.rs:109-176 expect real lists and dictionaries, so they fail against
  this code and are not modelled.
- The `Dict` variant's `HashMap`. Nothing in the code builds a dictionary.
  The model stores it as a `map` from raw key bytes, with no hashing and no
  key order.
- `Str` and dictionary keys hold raw bytes. In the source they are a `String`,
  but it holds the same bytes, and the model keeps the UTF-8 check that
  decides between `Ok` and the panic.
- `String::from_utf8_lossy` on the length prefix (src/lib.rs:62). The model
  parses the raw prefix bytes instead. The result is the same: any non-ASCII
  byte, and the U+FFFD replacement character, are non-digits, so the parse
  fails either way.
- The `unsafe` `as_mut_vec` buffer (src/lib.rs:31-42). This can put bytes that
  are not UTF-8 into a `String`. The model keeps the collected span as bytes
  and parses it as bytes, which is what `parse` reads.
- `Decoded`, `Decode`: `idx + len` at src/lib.rs:66 uses unbounded integers.
  With a length prefix near `usize::MAX` the Rust addition would overflow (a
  panic in a debug build, a wrap-around in a release build). The model treats
  that case as too few bytes and returns the invalid-length error.
- `usize` is taken to be 64 bits wide.
- A panic is recorded only by its site. The panic message and unwinding are
  not modelled.
- The short-input fast path inside Rust's integer parser, which skips overflow
  checks when the text is too short to overflow. It gives the same results as
  the checked path the model follows.
- The source has no encoder. `IntParse.Decimal` and `IntParse.NatDecimal` are
  the canonical BEP 3 rendering of numbers. They serve only as the inverse in
  the round-trip lemmas.

/** Raw bytes, ASCII digits and the forward scan used by the decoder. */
module Bytes {

  /** A Rust `u8`. */
  newtype u8 = x: int | 0 <= x < 256

  const ASCII_ZERO: u8 := 48  // '0'
  const ASCII_NINE: u8 := 57  // '9'

  predicate IsDigit(b: u8) {
    ASCII_ZERO <= b <= ASCII_NINE
  }

  /** The numeric value of an ASCII decimal digit. */
  function DigitValue(b: u8): (d: nat)
    requires IsDigit(b)
    ensures d < 10
  {
    (b - ASCII_ZERO) as nat
  }

  /** The ASCII digit for a value below ten; the inverse of DigitValue. */
  function DigitByte(d: nat): (b: u8)
    requires d < 10
    ensures IsDigit(b) && DigitValue(b) == d
  {
    (d as int + ASCII_ZERO as int) as u8
  }

  /**
   * The index of the first occurrence of `b` in `s` at or after `from`,
   * or `|s|` when there is none: the index at which a scan
   * `while s[idx] != b { idx += 1 }` stops, `|s|` standing for the point
   * where it would index past the end.
   */
  function Find(s: seq<u8>, b: u8, from: nat): (k: nat)
    requires from <= |s|
    ensures from <= k <= |s|
    ensures k < |s| ==> s[k] == b
    ensures forall j :: from <= j < k ==> s[j] != b
    decreases |s| - from
  {
    if from == |s| then |s|
    else if s[from] == b then from
    else Find(s, b, from + 1)
  }

  /** Find is the only index with its three properties. */
  lemma FindIsFirst(s: seq<u8>, b: u8, from: nat, k: nat)
    requires from <= k <= |s|
    requires k < |s| ==> s[k] == b
    requires forall j :: from <= j < k ==> s[j] != b
    ensures Find(s, b, from) == k
  {
  }

  predicate IsAsciiText(s: string) {
    forall i :: 0 <= i < |s| ==> s[i] as int < 128
  }

  /** The bytes of an ASCII string literal, as Rust's `b"..."` gives them. */
  function Ascii(s: string): (r: seq<u8>)
    requires IsAsciiText(s)
  {
    seq(|s|, i requires 0 <= i < |s| => s[i] as int as u8)
  }
}

/**
 * Well-formed UTF-8, the condition under which Rust's `String::from_utf8`
 * returns `Ok`: the byte sequences of Table 3-7 ("Well-Formed UTF-8 Byte
 * Sequences") in section 3.9 of the Unicode Standard, which exclude
 * overlong forms, surrogates and code points above U+10FFFF.
 */
module Utf8 {
  import opened Bytes

  predicate IsContinuation(b: u8) {
    0x80 <= b <= 0xBF
  }

  /**
   * The length of the well-formed encoded character at the start of `s`,
   * or 0 when `s` does not start with one.
   */
  function LeadWidth(s: seq<u8>): (w: nat)
    requires |s| > 0
    ensures w <= 4 && w <= |s|
    ensures w == 1 <==> s[0] <= 0x7F
  {
    var b := s[0];
    if b <= 0x7F then 1
    else if 0xC2 <= b <= 0xDF then
      (if |s| >= 2 && IsContinuation(s[1]) then 2 else 0)
    else if b == 0xE0 then
      (if |s| >= 3 && 0xA0 <= s[1] <= 0xBF && IsContinuation(s[2]) then 3 else 0)
    else if (0xE1 <= b <= 0xEC) || (0xEE <= b <= 0xEF) then
      (if |s| >= 3 && IsContinuation(s[1]) && IsContinuation(s[2]) then 3 else 0)
    else if b == 0xED then
      (if |s| >= 3 && 0x80 <= s[1] <= 0x9F && IsContinuation(s[2]) then 3 else 0)
    else if b == 0xF0 then
      (if |s| >= 4 && 0x90 <= s[1] <= 0xBF && IsContinuation(s[2]) && IsContinuation(s[3]) then 4 else 0)
    else if 0xF1 <= b <= 0xF3 then
      (if |s| >= 4 && IsContinuation(s[1]) && IsContinuation(s[2]) && IsContinuation(s[3]) then 4 else 0)
    else if b == 0xF4 then
      (if |s| >= 4 && 0x80 <= s[1] <= 0x8F && IsContinuation(s[2]) && IsContinuation(s[3]) then 4 else 0)
    else 0
  }

  /** `s` is a concatenation of well-formed encoded characters. */
  predicate ValidUtf8(s: seq<u8>)
    decreases |s|
  {
    s == [] || (LeadWidth(s) > 0 && ValidUtf8(s[LeadWidth(s)..]))
  }

  predicate IsAscii(s: seq<u8>) {
    forall i :: 0 <= i < |s| ==> s[i] <= 0x7F
  }

  /** ASCII bytes are valid UTF-8. */
  lemma {:induction false} AsciiIsValidUtf8(s: seq<u8>)
    requires IsAscii(s)
    ensures ValidUtf8(s)
    decreases |s|
  {
    if s != [] {
      assert LeadWidth(s) == 1;
      assert IsAscii(s[1..]) by {
        assert forall i :: 0 <= i < |s| - 1 ==> s[1..][i] == s[i + 1];
      }
      AsciiIsValidUtf8(s[1..]);
    }
  }
}

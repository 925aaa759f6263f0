/**
 * The Bencode decoder of src/lib.rs: `BValue`, the outcome of a call to
 * `decode` (a value, an error message, or a panic), the function that
 * specifies `decode`, and `decode` itself as a method that scans the
 * input with a moving index.
 */
module Bencode {
  import opened Bytes
  import opened IntParse
  import opened Utf8

  const INT_DELIM_BEGIN: u8 := 105   // 'i'
  const DICT_DELIM_BEGIN: u8 := 100  // 'd'
  const LIST_DELIM_BEGIN: u8 := 108  // 'l'
  const DELIM_END: u8 := 101         // 'e'
  const COLON_DELIM: u8 := 58        // ':'

  const EMPTY_INTEGER: string := "Decoding Error: Empty Integer Not-allowed."
  const ILL_FORMATTED_INTEGER: string := "Decoding Error: Ill-formatted Integer."
  const INVALID_STRING_LENGTH: string := "Decoding Error. Invalid string length."

  /**
   * A decoded value. `Str` keeps the raw bytes of the payload (in the
   * source they are held in a `String` once checked to be UTF-8), and
   * dictionary keys are raw bytes likewise. `None` is what the list and
   * dictionary branches return.
   */
  datatype BValue =
    | Str(bytes: seq<u8>)
    | Int(n: i16)
    | List(items: seq<BValue>)
    | Dict(entries: map<seq<u8>, BValue>)
    | None

  /** Where `decode` panics, when it does. */
  datatype PanicSite =
    | EmptyInput           // `input[0]` on an empty slice
    | UnterminatedInteger  // `input[idx]` past the end while looking for `e`
    | MissingColon         // `input[idx]` past the end while looking for `:`
    | InvalidUtf8          // `unwrap` of `String::from_utf8` on the payload

  /** What a call to `decode` does: return `Ok`, return `Err`, or panic. */
  datatype Outcome = Ok(value: BValue) | Err(msg: string) | Panic(site: PanicSite)

  /** The integer branch, given the bytes between the `i` and the first `e`. */
  function IntegerOutcome(span: seq<u8>): (r: Outcome)
    ensures r.Ok? ==> r.value.Int?
    ensures r.Err? ==> r.msg == EMPTY_INTEGER || r.msg == ILL_FORMATTED_INTEGER
    ensures r.Err? && r.msg == EMPTY_INTEGER <==> span == []
    ensures !r.Panic?
  {
    if span == [] then Err(EMPTY_INTEGER)
    else match ParseI16(span)
      case Parsed(n) => Ok(Int(n as i16))
      case Failed(_) => Err(ILL_FORMATTED_INTEGER)
  }

  /**
   * The string branch, given the bytes before the first `:` and the bytes
   * after it.
   */
  function StringOutcome(prefix: seq<u8>, rest: seq<u8>): (r: Outcome)
    ensures r.Ok? ==> r.value.Str? && r.value.bytes <= rest && ValidUtf8(r.value.bytes)
    ensures r.Err? ==> r.msg == INVALID_STRING_LENGTH
    ensures r.Panic? ==> r.site == InvalidUtf8
  {
    match ParseUsize(prefix)
    case Failed(_) => Err(INVALID_STRING_LENGTH)
    case Parsed(len) =>
      if len > |rest| then Err(INVALID_STRING_LENGTH)
      else if ValidUtf8(rest[..len]) then Ok(Str(rest[..len]))
      else Panic(InvalidUtf8)
  }

  /**
   * What `decode(input)` does. Dispatch is on the first byte; every byte
   * other than `i`, `l` and `d` selects the string branch.
   */
  function Decoded(input: seq<u8>): (r: Outcome)
    ensures r.Panic? && r.site == EmptyInput <==> input == []
    ensures |input| > 0 && (input[0] == LIST_DELIM_BEGIN || input[0] == DICT_DELIM_BEGIN) ==> r == Ok(None)
    ensures r.Ok? && r.value.Str? ==> |r.value.bytes| < |input|
  {
    if input == [] then Panic(EmptyInput)
    else if input[0] == INT_DELIM_BEGIN then
      var end := Find(input, DELIM_END, 1);
      if end == |input| then Panic(UnterminatedInteger)
      else IntegerOutcome(input[1..end])
    else if input[0] == LIST_DELIM_BEGIN || input[0] == DICT_DELIM_BEGIN then Ok(None)
    else
      var colon := Find(input, COLON_DELIM, 0);
      if colon == |input| then Panic(MissingColon)
      else StringOutcome(input[..colon], input[colon + 1..])
  }

  /**
   * `decode` as the source writes it: the integer branch pushes the bytes
   * up to the first `e` into a buffer, the string branch steps an index to
   * the first `:`, and reading past the end of the input is a panic.
   */
  method Decode(input: seq<u8>) returns (r: Outcome)
    ensures r == Decoded(input)
  {
    if |input| == 0 {
      return Panic(EmptyInput);
    }
    if input[0] == INT_DELIM_BEGIN {
      var idx := 1;
      var digits: seq<u8> := [];
      while idx < |input| && input[idx] != DELIM_END
        invariant 1 <= idx <= |input|
        invariant digits == input[1..idx]
        invariant forall j :: 1 <= j < idx ==> input[j] != DELIM_END
      {
        digits := digits + [input[idx]];
        idx := idx + 1;
      }
      FindIsFirst(input, DELIM_END, 1, idx);
      if idx == |input| {
        return Panic(UnterminatedInteger);
      }
      if |digits| == 0 {
        return Err(EMPTY_INTEGER);
      }
      var n := ParseI16(digits);
      if n.Failed? {
        return Err(ILL_FORMATTED_INTEGER);
      }
      return Ok(Int(n.value as i16));
    } else if input[0] == LIST_DELIM_BEGIN {
      return Ok(None);
    } else if input[0] == DICT_DELIM_BEGIN {
      return Ok(None);
    } else {
      var idx := 0;
      while idx < |input| && input[idx] != COLON_DELIM
        invariant 0 <= idx <= |input|
        invariant forall j :: 0 <= j < idx ==> input[j] != COLON_DELIM
      {
        idx := idx + 1;
      }
      FindIsFirst(input, COLON_DELIM, 0, idx);
      if idx == |input| {
        return Panic(MissingColon);
      }
      var len := ParseUsize(input[..idx]);
      if len.Failed? {
        return Err(INVALID_STRING_LENGTH);
      }
      idx := idx + 1;
      if idx + len.value > |input| {
        return Err(INVALID_STRING_LENGTH);
      }
      var payload := input[idx..idx + len.value];
      assert payload == input[idx..][..len.value];
      if !ValidUtf8(payload) {
        return Panic(InvalidUtf8);
      }
      return Ok(Str(payload));
    }
  }
}

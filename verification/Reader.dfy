/**
 What each parser step returns, as functions of the text and the position it starts at.
 Every successful value takes at least one byte, which is the measure of the mutual recursion.
 */
module Reader {
  import opened Bytes
  import opened Decimal
  import opened Outcome
  import opened Json
  import opened Grammar

  /** The byte at a position, and NUL past the end. */
  function Peek(s: bytes, i: nat): Byte {
    if i < |s| then s[i] else 0
  }

  function SkipSpace(s: bytes, i: nat): (e: nat)
    requires i <= |s|
    ensures i <= e <= |s|
    decreases |s| - i
  {
    if i < |s| && Grammar.IsSpace(s[i]) then SkipSpace(s, i + 1) else i
  }

  /** Exactly the run of white space is skipped. */
  lemma {:induction false} SkipSpaceStops(s: bytes, i: nat)
    requires i <= |s|
    ensures var e := SkipSpace(s, i); AllSpace(s[i..e]) && (e < |s| ==> !Grammar.IsSpace(s[e]))
    decreases |s| - i
  {
    if i < |s| && Grammar.IsSpace(s[i]) {
      SkipSpaceStops(s, i + 1);
      var e := SkipSpace(s, i);
      assert s[i..e] == [s[i]] + s[i + 1..e];
    }
  }

  function ValueAt(stod: Stod, s: bytes, i: nat): (r: Parsed<JsonValue>)
    requires i <= |s|
    ensures r.Ok? ==> i < r.end <= |s|
    decreases |s| - i, 2
  {
    var k := SkipSpace(s, i);
    var c := Peek(s, k);
    if c == LBRACE then ObjectAt(stod, s, k)
    else if c == LBRACKET then ArrayAt(stod, s, k)
    else if c == QUOTE then
      var (t, e) :- StringAt(s, k);
      Ok(JsonValue.String(t), e)
    else if c == TRUE_TEXT[0] || c == FALSE_TEXT[0] then BoolAt(s, k)
    else if c == NULL_TEXT[0] then NullAt(s, k)
    else NumberAt(stod, s, k)
  }

  function ObjectAt(stod: Stod, s: bytes, i: nat): (r: Parsed<JsonValue>)
    requires i < |s|
    ensures r.Ok? ==> i < r.end <= |s|
    decreases |s| - i, 1
  {
    var k := SkipSpace(s, i + 1);
    if Peek(s, k) == RBRACE then Ok(JsonValue.Object([]), k + 1)
    else
      var (obj, e) :- MembersAt(stod, s, k);
      Ok(JsonValue.Object(obj), e)
  }

  /** Members up to and including the closing brace. */
  function MembersAt(stod: Stod, s: bytes, i: nat): (r: Parsed<seq<Member>>)
    requires i <= |s|
    ensures r.Ok? ==> i < r.end <= |s|
    decreases |s| - i, 4
  {
    var (m, e) :- MemberAt(stod, s, i);
    var sep := SkipSpace(s, e);
    if Peek(s, sep) == COMMA then
      var (rest, f) :- MembersAt(stod, s, sep + 1);
      Ok([m] + rest, f)
    else if Peek(s, sep) == RBRACE then Ok([m], sep + 1)
    else Err(ExpectedCommaOrBrace)
  }

  function MemberAt(stod: Stod, s: bytes, i: nat): (r: Parsed<Member>)
    requires i <= |s|
    ensures r.Ok? ==> i < r.end <= |s|
    decreases |s| - i, 3
  {
    var k := SkipSpace(s, i);
    if Peek(s, k) != QUOTE then Err(ExpectedKey)
    else
      var (key, e) :- StringAt(s, k);
      var colon := SkipSpace(s, e);
      if Peek(s, colon) != COLON then Err(ExpectedColon)
      else
        var (v, f) :- ValueAt(stod, s, colon + 1);
        Ok(Member(key, v), f)
  }

  function ArrayAt(stod: Stod, s: bytes, i: nat): (r: Parsed<JsonValue>)
    requires i < |s|
    ensures r.Ok? ==> i < r.end <= |s|
    decreases |s| - i, 1
  {
    var k := SkipSpace(s, i + 1);
    if Peek(s, k) == RBRACKET then Ok(JsonValue.Array([]), k + 1)
    else
      var (arr, e) :- ElementsAt(stod, s, k);
      Ok(JsonValue.Array(arr), e)
  }

  /** Elements up to and including the closing bracket. */
  function ElementsAt(stod: Stod, s: bytes, i: nat): (r: Parsed<seq<JsonValue>>)
    requires i <= |s|
    ensures r.Ok? ==> i < r.end <= |s|
    decreases |s| - i, 3
  {
    var (v, e) :- ValueAt(stod, s, i);
    var sep := SkipSpace(s, e);
    if Peek(s, sep) == COMMA then
      var (rest, f) :- ElementsAt(stod, s, sep + 1);
      Ok([v] + rest, f)
    else if Peek(s, sep) == RBRACKET then Ok([v], sep + 1)
    else Err(ExpectedCommaOrBracket)
  }

  function StringAt(s: bytes, i: nat): (r: Parsed<bytes>)
    requires i <= |s|
    ensures r.Ok? ==> i < r.end <= |s|
  {
    if Peek(s, i) != QUOTE then Err(ExpectedQuote) else CharsAt(s, i + 1)
  }

  /** The bytes of a string up to and including its closing quote. */
  function CharsAt(s: bytes, i: nat): (r: Parsed<bytes>)
    requires i <= |s|
    ensures r.Ok? ==> i < r.end <= |s|
    decreases |s| - i
  {
    if i == |s| then Err(UnterminatedString)
    else if s[i] == QUOTE then Ok([], i + 1)
    else
      var (out, e) :- CharAt(s, i);
      var (rest, f) :- CharsAt(s, e);
      Ok(out + rest, f)
  }

  /** The bytes that one character of a string, escaped or not, adds to the result. */
  function CharAt(s: bytes, i: nat): (r: Parsed<bytes>)
    requires i < |s|
    ensures r.Ok? ==> i < r.end <= |s|
  {
    if s[i] != BACKSLASH then Ok([s[i]], i + 1)
    else if i + 1 == |s| then Err(TruncatedEscape)
    else if s[i + 1] == LETTER_U then
      if i + 6 > |s| then Err(TruncatedUnicodeEscape)
      else if !AllHex(s[i + 2..i + 6]) then Err(BadHexDigit)
      else
        HexValueBound(s[i + 2..i + 6]);
        Ok(EmitBmp(HexValue(s[i + 2..i + 6])), i + 6)
    else if EscapeTarget(s[i + 1]).Some? then Ok([EscapeTarget(s[i + 1]).value], i + 2)
    else Err(UnknownEscape)
  }

  /** The encoder of the \u branch; its bit fields do not overlap, so they are added (see BitFields). */
  function EmitBmp(cp: nat): bytes
    requires cp < 0x1_0000
  {
    if cp < 0x80 then [cp]
    else if cp < 0x800 then [0xC0 + cp / 0x40, 0x80 + cp % 0x40]
    else [0xE0 + cp / 0x1000, 0x80 + cp / 0x40 % 0x40, 0x80 + cp % 0x40]
  }

  function BoolAt(s: bytes, i: nat): (r: Parsed<JsonValue>)
    requires i <= |s|
    ensures r.Ok? ==> i < r.end <= |s|
  {
    if At(s, i, TRUE_TEXT) then Ok(JsonValue.Bool(true), i + 4)
    else if At(s, i, FALSE_TEXT) then Ok(JsonValue.Bool(false), i + 5)
    else Err(BadLiteral)
  }

  function NullAt(s: bytes, i: nat): (r: Parsed<JsonValue>)
    requires i <= |s|
    ensures r.Ok? ==> i < r.end <= |s|
  {
    if At(s, i, NULL_TEXT) then Ok(JsonValue.Null, i + 4) else Err(BadLiteral)
  }

  /** The end of the run of number bytes that starts at i. */
  function NumberEnd(s: bytes, i: nat): (e: nat)
    requires i <= |s|
    ensures i <= e <= |s|
    ensures forall k :: i <= k < e ==> IsNumberByte(s[k])
    ensures e < |s| ==> !IsNumberByte(s[e])
    decreases |s| - i
  {
    if i < |s| && IsNumberByte(s[i]) then NumberEnd(s, i + 1) else i
  }

  function NumberAt(stod: Stod, s: bytes, i: nat): (r: Parsed<JsonValue>)
    requires i <= |s|
    ensures r.Ok? ==> i < r.end <= |s|
  {
    var e := NumberEnd(s, i);
    if e == i then Err(BadNumber) else Lift(ReadNumber(stod, s[i..e]), e)
  }

  /** parse(): one value with white space around it. What follows it is not looked at. */
  function DocumentAt(stod: Stod, s: bytes): (r: Parsed<JsonValue>)
    ensures r.Ok? ==> 0 < r.end <= |s|
  {
    var (v, e) :- ValueAt(stod, s, SkipSpace(s, 0));
    Ok(v, SkipSpace(s, e))
  }

  /** parse_json. */
  function Parse(stod: Stod, s: bytes): Result<JsonValue> {
    match DocumentAt(stod, s)
    case Ok(v, _) => Success(v)
    case Err(e) => Failure(e)
  }
}

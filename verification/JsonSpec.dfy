/** What one line of JSON means: a recursive-descent reading of RFC 8259,
    sections 2 to 7, with the reader's nesting cap (section 9). It knows
    nothing of arenas, buffers or stacks. */
module JsonSpec {
  import opened Bytes
  import opened Decimals

  const MAX_DEPTH := 32

  /** A member of an object carries its name; an element of an array does not. */
  datatype Json =
    | Null
    | Bool(flag: bool)
    | Number(literal: Bytes)
    | String(text: Bytes)
    | Array(entries: seq<Entry>)
    | Object(entries: seq<Entry>)

  datatype Entry = Entry(key: Option<Bytes>, value: Json)

  datatype Parsed = Parsed(value: Json, end: nat)
  datatype ParsedText = ParsedText(text: Bytes, end: nat)

  function Container(isObject: bool, entries: seq<Entry>): Json {
    if isObject then Object(entries) else Array(entries)
  }

  function Opener(isObject: bool): byte { if isObject then LBRACE else LBRACKET }
  function Closer(isObject: bool): byte { if isObject then RBRACE else RBRACKET }

  predicate IsSpace(b: byte) { b == SPACE || b == TAB || b == CARRIAGE || b == NEWLINE }

  function SkipSpace(s: Bytes, at: nat): (r: nat)
    requires at <= |s|
    ensures at <= r <= |s|
    ensures forall i :: at <= i < r ==> IsSpace(s[i])
    ensures r < |s| ==> !IsSpace(s[r])
    decreases |s| - at
  {
    if at < |s| && IsSpace(s[at]) then SkipSpace(s, at + 1) else at
  }

  // ---- strings (section 7) ----

  /** Four hex digits as one UTF-16 code unit. */
  function CodeUnit(s: Bytes, at: nat): (r: Option<nat>)
    requires at <= |s|
    ensures r.Some? ==> at + 4 <= |s| && r.value < 0x10000
  {
    if |s| - at < 4 then None
    else
      var a, b, c, d := HexValue(s[at]), HexValue(s[at + 1]), HexValue(s[at + 2]), HexValue(s[at + 3]);
      if a < 0 || b < 0 || c < 0 || d < 0 then None
      else Some(((a * 16 + b) * 16 + c) * 16 + d)
  }

  predicate IsHigh(unit: nat) { 0xd800 <= unit <= 0xdbff }
  predicate IsLow(unit: nat) { 0xdc00 <= unit <= 0xdfff }

  function Combine(high: nat, low: nat): (r: nat)
    requires IsHigh(high) && IsLow(low)
    ensures 0x10000 <= r < 0x110000
  {
    0x10000 + (high - 0xd800) * 0x400 + (low - 0xdc00)
  }

  /** Section 3 of RFC 3629. */
  function Utf8(codePoint: nat): (r: Bytes)
    requires codePoint < 0x110000
    ensures 1 <= |r| <= 4
    ensures codePoint < 0x10000 ==> |r| <= 3
  {
    if codePoint < 0x80 then [codePoint]
    else if codePoint < 0x800 then
      [0xc0 + codePoint / 0x40, 0x80 + codePoint % 0x40]
    else if codePoint < 0x10000 then
      [0xe0 + codePoint / 0x1000, 0x80 + codePoint / 0x40 % 0x40, 0x80 + codePoint % 0x40]
    else
      [0xf0 + codePoint / 0x40000, 0x80 + codePoint / 0x1000 % 0x40,
       0x80 + codePoint / 0x40 % 0x40, 0x80 + codePoint % 0x40]
  }

  /** The one-letter escapes: what stands for what. */
  function ShortEscape(letter: byte): Option<byte> {
    if letter == QUOTE || letter == BACKSLASH || letter == SLASH then Some(letter)
    else if letter == 98 then Some(8)
    else if letter == 102 then Some(12)
    else if letter == 110 then Some(10)
    else if letter == 114 then Some(13)
    else if letter == 116 then Some(9)
    else None
  }

  const LOWER_U: byte := 117

  /** A `\u` escape whose digits begin at `at`: its UTF-8 bytes and where it ends. */
  function UnicodeEscape(s: Bytes, at: nat): (r: Option<ParsedText>)
    requires at <= |s|
    ensures r.Some? ==> at + 4 <= r.value.end <= |s| && 1 <= |r.value.text| <= 4
    ensures r.Some? && |r.value.text| == 4 ==> at + 10 <= r.value.end
  {
    var unit := CodeUnit(s, at);
    if unit.None? || IsLow(unit.value) then None
    else if IsHigh(unit.value) then
      var next := at + 4;
      if |s| - next < 2 || s[next] != BACKSLASH || s[next + 1] != LOWER_U then None
      else
        var low := CodeUnit(s, next + 2);
        if low.None? || !IsLow(low.value) then None
        else Some(ParsedText(Utf8(Combine(unit.value, low.value)), next + 6))
    else Some(ParsedText(Utf8(unit.value), at + 4))
  }

  /** One character of a string, escaped or plain: not the closing quote. */
  function Character(s: Bytes, at: nat): (r: Option<ParsedText>)
    requires at < |s|
    ensures r.Some? ==> at < r.value.end <= |s| && |r.value.text| <= r.value.end - at
  {
    if s[at] < 0x20 then None
    else if s[at] != BACKSLASH then Some(ParsedText([s[at]], at + 1))
    else if at + 1 >= |s| then None
    else if s[at + 1] == LOWER_U then UnicodeEscape(s, at + 2)
    else
      var short := ShortEscape(s[at + 1]);
      if short.None? then None else Some(ParsedText([short.value], at + 2))
  }

  /** The rest of a string whose first characters read as `read`. */
  function StringRest(s: Bytes, at: nat, read: Bytes): (r: Option<ParsedText>)
    requires at <= |s|
    ensures r.Some? ==> at < r.value.end <= |s|
    decreases |s| - at
  {
    if at >= |s| then None
    else if s[at] == QUOTE then Some(ParsedText(read, at + 1))
    else
      var c := Character(s, at);
      if c.None? then None else StringRest(s, c.value.end, read + c.value.text)
  }

  // ---- numbers (section 6) ----

  function IntegerEnd(s: Bytes, at: nat): (r: Option<nat>)
    requires at <= |s|
    ensures r.Some? ==> at < r.value <= |s|
  {
    var first := if at < |s| && s[at] == MINUS then at + 1 else at;
    if first >= |s| then None
    else if s[first] == 48 then Some(first + 1)
    else if IsDigit(s[first]) then Some(SkipDigits(s, first))
    else None
  }

  function FractionEnd(s: Bytes, at: nat): (r: Option<nat>)
    requires at <= |s|
    ensures r.Some? ==> at <= r.value <= |s|
  {
    if at < |s| && s[at] == DOT then
      var end := SkipDigits(s, at + 1);
      if end == at + 1 then None else Some(end)
    else Some(at)
  }

  predicate IsExponentMark(b: byte) { b == 101 || b == 69 }
  predicate IsSign(b: byte) { b == PLUS || b == MINUS }

  function ExponentEnd(s: Bytes, at: nat): (r: Option<nat>)
    requires at <= |s|
    ensures r.Some? ==> at <= r.value <= |s|
  {
    if at < |s| && IsExponentMark(s[at]) then
      var first := if at + 1 < |s| && IsSign(s[at + 1]) then at + 2 else at + 1;
      var end := SkipDigits(s, first);
      if end == first then None else Some(end)
    else Some(at)
  }

  function NumberEnd(s: Bytes, at: nat): (r: Option<nat>)
    requires at <= |s|
    ensures r.Some? ==> at < r.value <= |s|
  {
    var whole := IntegerEnd(s, at);
    if whole.None? then None
    else
      var fraction := FractionEnd(s, whole.value);
      if fraction.None? then None else ExponentEnd(s, fraction.value)
  }

  // ---- values (sections 2 to 5) ----

  const TRUE_WORD: Bytes := [116, 114, 117, 101]
  const FALSE_WORD: Bytes := [102, 97, 108, 115, 101]
  const NULL_WORD: Bytes := [110, 117, 108, 108]

  /** A value that is not a container, at its first byte. */
  function ParseScalar(s: Bytes, at: nat): (r: Option<Parsed>)
    requires at < |s|
    ensures r.Some? ==> at < r.value.end <= |s|
  {
    if s[at] == QUOTE then
      var text := StringRest(s, at + 1, []);
      if text.None? then None else Some(Parsed(String(text.value.text), text.value.end))
    else if s[at] == 116 || s[at] == 102 then
      if Holds(s, at, TRUE_WORD) then Some(Parsed(Bool(true), at + 4))
      else if Holds(s, at, FALSE_WORD) then Some(Parsed(Bool(false), at + 5))
      else None
    else if s[at] == 110 then
      if Holds(s, at, NULL_WORD) then Some(Parsed(Null, at + 4)) else None
    else
      var end := NumberEnd(s, at);
      if end.None? then None else Some(Parsed(Number(s[at..end.value]), end.value))
  }

  /** A member's name and its colon. */
  function ParseKey(s: Bytes, at: nat): (r: Option<ParsedText>)
    requires at <= |s|
    ensures r.Some? ==> at < r.value.end <= |s|
  {
    var open := SkipSpace(s, at);
    if open >= |s| || s[open] != QUOTE then None
    else
      var name := StringRest(s, open + 1, []);
      if name.None? then None
      else
        var colon := SkipSpace(s, name.value.end);
        if colon >= |s| || s[colon] != COLON then None
        else Some(ParsedText(name.value.text, colon + 1))
  }

  /** A value inside `depth` open containers. */
  function ParseValue(s: Bytes, at: nat, depth: nat): (r: Option<Parsed>)
    requires at <= |s|
    ensures r.Some? ==> at < r.value.end <= |s|
    decreases |s| - at, 0
  {
    var first := SkipSpace(s, at);
    if first >= |s| then None
    else if s[first] == LBRACE || s[first] == LBRACKET then
      if depth >= MAX_DEPTH then None
      else
        var isObject := s[first] == LBRACE;
        var inside := SkipSpace(s, first + 1);
        if inside < |s| && s[inside] == Closer(isObject) then
          Some(Parsed(Container(isObject, []), inside + 1))
        else ParseEntries(s, inside, depth + 1, isObject, [])
    else ParseScalar(s, first)
  }

  /** One or more entries up to the closing byte, after the entries `done`. */
  function ParseEntries(s: Bytes, at: nat, depth: nat, isObject: bool, done: seq<Entry>): (r: Option<Parsed>)
    requires at <= |s|
    ensures r.Some? ==> at < r.value.end <= |s|
    decreases |s| - at, 1
  {
    var key := if isObject then ParseKey(s, at) else Some(ParsedText([], at));
    if key.None? then None
    else
      var value := ParseValue(s, key.value.end, depth);
      if value.None? then None
      else
        var entries := done + [Entry(if isObject then Some(key.value.text) else None, value.value.value)];
        var next := SkipSpace(s, value.value.end);
        if next >= |s| then None
        else if s[next] == COMMA then ParseEntries(s, next + 1, depth, isObject, entries)
        else if s[next] == Closer(isObject) then Some(Parsed(Container(isObject, entries), next + 1))
        else None
  }

  /** The value one whole line spells, if it spells one. */
  function ParseDocument(s: Bytes): Option<Json> {
    var value := ParseValue(s, 0, 0);
    if value.None? || SkipSpace(s, value.value.end) != |s| then None else Some(value.value.value)
  }
}

/**
 The parser as a function of the remaining input. The input always ends in its NUL, so what remains
 is never empty; `Parser` proves that the cursor-moving code computes exactly this function.
 */
module Parse {
  import opened CString
  import opened Digits
  import opened Json
  import opened Render

  const NESTING_LIMIT: nat := 1000

  /**
   A failure says whether the cursor was left one position behind the final NUL. That happens when a
   member name is due where the input ends; `Truncated.OverrunExactly` says on which inputs.
   */
  datatype Result<+T> = Failure(overrun: bool) | Success(value: T, rest: string)

  /** Input that has not been read yet, up to and including the final NUL. */
  predicate Terminated(s: string) {
    s != [] && s[|s| - 1] == NUL
  }

  predicate StartsWith(s: string, word: string) {
    |word| <= |s| && s[..|word|] == word
  }

  /** `buffer_skip_whitespace`: skips bytes up to 32, but never moves off the last byte. */
  function SkipWhitespace(s: string): (r: string)
    requires Terminated(s)
    ensures Terminated(r) && |r| <= |s|
    ensures |r| == 1 || r[0] > ' '
  {
    if |s| == 1 || s[0] > ' ' then s else SkipWhitespace(s[1..])
  }

  // ---- Strings ------------------------------------------------------------------------------

  /** First pass: how far it is to the closing quote, a backslash hiding the byte behind it. */
  function FindClose(s: string): (r: Option<nat>)
    ensures r.Some? ==> r.value < |s| && s[r.value] == QUOTE
  {
    if s == [] then None
    else if s[0] == QUOTE then Some(0)
    else if s[0] == BACKSLASH then
      if |s| < 2 then None
      else
        match FindClose(s[2..])
        case None => None
        case Some(n) => Some(n + 2)
    else
      match FindClose(s[1..])
      case None => None
      case Some(n) => Some(n + 1)
  }

  /** A position found, seen from `n` bytes before. */
  function Further(r: Option<nat>, n: nat): Option<nat> {
    if r.Some? then Some(r.value + n) else None
  }

  function HexValue(c: char): Option<nat> {
    if '0' <= c <= '9' then Some(c as int - '0' as int)
    else if 'A' <= c <= 'F' then Some(10 + c as int - 'A' as int)
    else if 'a' <= c <= 'f' then Some(10 + c as int - 'a' as int)
    else None
  }

  /** `parse_hex4`: anything but four hexadecimal digits counts as 0. */
  function ParseHex4(s: string): (r: nat)
    requires |s| >= 4
    ensures r < 0x10000
  {
    var a, b, c, d := HexValue(s[0]), HexValue(s[1]), HexValue(s[2]), HexValue(s[3]);
    if a.Some? && b.Some? && c.Some? && d.Some?
    then a.value * 4096 + b.value * 256 + c.value * 16 + d.value
    else 0
  }

  function Continuation(codepoint: nat): char {
    (0x80 + codepoint % 64) as char
  }

  function Utf8(codepoint: nat): (r: string)
    requires codepoint < 0x110000
    ensures 1 <= |r| <= 4
  {
    if codepoint < 0x80 then [codepoint as char]
    else if codepoint < 0x800 then [(0xC0 + codepoint / 64) as char, Continuation(codepoint)]
    else if codepoint < 0x10000 then
      [(0xE0 + codepoint / 4096) as char, Continuation(codepoint / 64), Continuation(codepoint)]
    else
      [(0xF0 + codepoint / 262144) as char, Continuation(codepoint / 4096), Continuation(codepoint / 64), Continuation(codepoint)]
  }

  /** The bytes a `\u` literal stands for and the number of bytes it takes up. */
  datatype Literal = BadLiteral | Literal(bytes: string, length: nat)

  /** `utf16_literal_to_utf8`, with `room` bytes left in front of the closing quote. */
  function Utf16Literal(s: string, room: nat): (r: Literal)
    requires room <= |s|
    ensures r.Literal? ==> 1 <= |r.bytes| <= 4 && (r.length == 6 || r.length == 12) && r.length <= room
  {
    if room < 6 then BadLiteral
    else
      var first := ParseHex4(s[2..6]);
      if 0xDC00 <= first <= 0xDFFF then BadLiteral
      else if 0xD800 <= first <= 0xDBFF then
        if room < 12 || s[6] != BACKSLASH || s[7] != 'u' then BadLiteral
        else
          var second := ParseHex4(s[8..12]);
          if second < 0xDC00 || second > 0xDFFF then BadLiteral
          else Literal(Utf8(0x10000 + (first - 0xD800) * 1024 + (second - 0xDC00)), 12)
      else Literal(Utf8(first), 6)
  }

  /** The byte a one-letter escape stands for. */
  function SimpleEscape(c: char): Option<char> {
    if c == 'b' then Some(BACKSPACE)
    else if c == 'f' then Some(FORM_FEED)
    else if c == 'n' then Some(NEWLINE)
    else if c == 'r' then Some(RETURN)
    else if c == 't' then Some(TAB)
    else if c == QUOTE || c == BACKSLASH || c == '/' then Some(c)
    else None
  }

  /**
   Second pass, with `room` bytes left in front of the closing quote. It may disagree with the first
   pass about where escapes start, and then take the closing quote itself for an escaped one.
   */
  function Unescape(s: string, room: nat): Option<string>
    requires room < |s|
    decreases room
  {
    if room == 0 then Some("")
    else if s[0] != BACKSLASH then Prepend([s[0]], Unescape(s[1..], room - 1))
    else if s[1] == 'u' then
      match Utf16Literal(s, room)
      case BadLiteral => None
      case Literal(bytes, n) => Prepend(bytes, Unescape(s[n..], room - n))
    else
      match SimpleEscape(s[1])
      case None => None
      case Some(c) => Prepend([c], if room == 1 then Some("") else Unescape(s[2..], room - 2))
  }

  function Prepend(bytes: string, more: Option<string>): Option<string> {
    if more.Some? then Some(bytes + more.value) else None
  }

  /** A buffer read as a C string ends at its first NUL. */
  function UpToNul(s: string): string {
    if s == [] || s[0] == NUL then [] else [s[0]] + UpToNul(s[1..])
  }

  /** `parse_string`. */
  function ParseString(s: string): (r: Result<string>)
    requires Terminated(s)
    ensures r.Success? ==> Terminated(r.rest) && |r.rest| < |s|
  {
    if s[0] != QUOTE then Failure(|s| == 1)
    else
      match FindClose(s[1..])
      case None => Failure(false)
      case Some(n) =>
        match Unescape(s[1..], n)
        case None => Failure(false)
        case Some(text) => Success(UpToNul(text), s[n + 2..])
  }

  // ---- Numbers ------------------------------------------------------------------------------

  predicate IsNumberChar(c: char) {
    IsDigit(c) || c == '+' || c == '-' || c == 'e' || c == 'E' || c == '.'
  }

  /** What `parse_number` copies out: at most 63 bytes that may belong to a number. */
  function NumberText(s: string, limit: nat): (r: string)
    ensures |r| <= limit && r <= s
    ensures forall i :: 0 <= i < |r| ==> IsNumberChar(r[i])
  {
    if limit == 0 || s == [] || !IsNumberChar(s[0]) then "" else [s[0]] + NumberText(s[1..], limit - 1)
  }

  /** Position behind the digits that start at `i`. */
  function DigitsEnd(s: string, i: nat): (j: nat)
    requires i <= |s|
    ensures i <= j <= |s| && AllDigits(s[i..j])
    decreases |s| - i
  {
    if i < |s| && IsDigit(s[i]) then DigitsEnd(s, i + 1) else i
  }

  function Pow10(e: int): real
    decreases if e < 0 then -e else e
  {
    if e == 0 then 1.0 else if e > 0 then 10.0 * Pow10(e - 1) else Pow10(e + 1) / 10.0
  }

  function SkipSign(s: string, i: nat): (j: nat)
    requires i <= |s|
    ensures i <= j <= |s|
  {
    if i < |s| && (s[i] == '-' || s[i] == '+') then i + 1 else i
  }

  function Negate(x: int, negative: bool): int {
    if negative then -x else x
  }

  /** The decimal literal at the front of `s`, as `strtod` takes it; `end` 0 means there is none. */
  datatype Decimals = Decimals(value: real, end: nat)

  /** Where the digits, the fraction and the exponent of a number begin and end. */
  datatype Scan = Scan(start: nat, point: nat, fraction: nat, end: nat, exponent: nat, exponentEnd: nat)

  function ScanNumber(s: string): (c: Scan)
    ensures c.start <= c.point <= c.fraction <= c.end <= c.exponent <= c.exponentEnd <= |s|
    ensures AllDigits(s[c.start..c.point]) && AllDigits(s[c.fraction..c.end]) && AllDigits(s[c.exponent..c.exponentEnd])
    ensures c.exponentEnd > c.exponent ==> c.end + 1 < |s|
  {
    var start := SkipSign(s, 0);
    var point := DigitsEnd(s, start);
    var fraction := if point < |s| && s[point] == '.' then point + 1 else point;
    var end := if fraction > point then DigitsEnd(s, fraction) else point;
    var exponent := if end < |s| && (s[end] == 'e' || s[end] == 'E') then SkipSign(s, end + 1) else end;
    Scan(start, point, fraction, end, exponent, if exponent > end then DigitsEnd(s, exponent) else end)
  }

  /** `strtod` on the bytes a number may consist of, in exact arithmetic. */
  function StringToDouble(s: string): (r: Decimals)
    ensures r.end <= |s|
  {
    var c := ScanNumber(s);
    var digits := s[c.start..c.point] + s[c.fraction..c.end];
    if digits == "" then Decimals(0.0, 0)
    else
      var mantissa := Negate(Accumulate(digits, 0), s[0] == '-');
      var scale := -(c.end - c.fraction);
      if c.exponentEnd > c.exponent then
        var e := Negate(Accumulate(s[c.exponent..c.exponentEnd], 0), s[c.end + 1] == '-');
        Decimals(mantissa as real * Pow10(scale + e), c.exponentEnd)
      else
        Decimals(mantissa as real * Pow10(scale), c.end)
  }

  /** `parse_number`. */
  function ParseNumber(s: string): (r: Result<Value>)
    requires Terminated(s)
    ensures r.Success? ==> Terminated(r.rest) && |r.rest| < |s|
  {
    var text := NumberText(s, 63);
    var d := StringToDouble(text);
    if d.end == 0 then Failure(false)
    else
      assert !IsNumberChar(s[|s| - 1]);
      Success(Number(d.value), s[d.end..])
  }

  // ---- Values -------------------------------------------------------------------------------

  /** `parse_value`. */
  function ParseValue(s: string, depth: nat): (r: Result<Value>)
    requires Terminated(s)
    ensures r.Success? ==> Terminated(r.rest) && |r.rest| < |s|
    decreases |s|, 1
  {
    if StartsWith(s, "null") then Success(Null, AfterWord(s, "null"))
    else if StartsWith(s, "false") then Success(False, AfterWord(s, "false"))
    else if StartsWith(s, "true") then Success(True, AfterWord(s, "true"))
    else if s[0] == QUOTE then
      match ParseString(s)
      case Failure(overrun) => Failure(overrun)
      case Success(text, rest) => Success(String(text), rest)
    else if s[0] == '-' || IsDigit(s[0]) then ParseNumber(s)
    else if s[0] == '[' then ParseArray(s, depth)
    else if s[0] == '{' then ParseObject(s, depth)
    else Failure(false)
  }

  function AfterWord(s: string, word: string): (r: string)
    requires Terminated(s) && StartsWith(s, word) && NUL !in word && word != []
    ensures Terminated(r) && |r| < |s|
  {
    assert s[..|word|][|word| - 1] in word;
    s[|word|..]
  }

  /** `parse_array`. */
  function ParseArray(s: string, depth: nat): (r: Result<Value>)
    requires Terminated(s) && s[0] == '['
    ensures r.Success? ==> Terminated(r.rest) && |r.rest| < |s|
    decreases |s|, 0
  {
    if depth >= NESTING_LIMIT then Failure(false)
    else
      var t := SkipWhitespace(s[1..]);
      if t[0] == ']' then Success(Array([]), t[1..])
      else
        match ParseItems(t, depth + 1)
        case Failure(overrun) => Failure(overrun)
        case Success(items, rest) => Success(Array(items), rest)
  }

  /** The loop over the elements, through the closing bracket. */
  function ParseItems(s: string, depth: nat): (r: Result<seq<Value>>)
    requires Terminated(s)
    ensures r.Success? ==> Terminated(r.rest) && |r.rest| < |s|
    decreases |s|, 2
  {
    ItemsAfter(ParseValue(SkipWhitespace(s), depth), |s|, depth)
  }

  /** ... once the element at the front has been parsed. */
  function ItemsAfter(item: Result<Value>, ghost bound: nat, depth: nat): (r: Result<seq<Value>>)
    requires item.Success? ==> Terminated(item.rest) && |item.rest| < bound
    ensures r.Success? ==> Terminated(r.rest) && |r.rest| < bound
    decreases bound, 1
  {
    if item.Failure? then Failure(item.overrun)
    else
      var t := SkipWhitespace(item.rest);
      if t[0] == ',' then
        match ParseItems(t[1..], depth)
        case Failure(overrun) => Failure(overrun)
        case Success(items, end) => Success([item.value] + items, end)
      else if t[0] == ']' then Success([item.value], t[1..])
      else Failure(false)
  }

  /** `parse_object`. */
  function ParseObject(s: string, depth: nat): (r: Result<Value>)
    requires Terminated(s) && s[0] == '{'
    ensures r.Success? ==> Terminated(r.rest) && |r.rest| < |s|
    decreases |s|, 0
  {
    if depth >= NESTING_LIMIT then Failure(false)
    else
      var t := SkipWhitespace(s[1..]);
      if t[0] == '}' then Success(Object([]), t[1..])
      else
        match ParseMembers(t, depth + 1)
        case Failure(overrun) => Failure(overrun)
        case Success(members, rest) => Success(Object(members), rest)
  }

  /** The loop over the members, through the closing brace. */
  function ParseMembers(s: string, depth: nat): (r: Result<Members>)
    requires Terminated(s)
    ensures r.Success? ==> Terminated(r.rest) && |r.rest| < |s|
    decreases |s|, 2
  {
    match ParseKey(s)
    case Failure(overrun) => Failure(overrun)
    case Success(key, rest) => MembersAfter(key, ParseValue(rest, depth), |s|, depth)
  }

  /** The name of a member and its colon, through the whitespace behind it. */
  function ParseKey(s: string): (r: Result<string>)
    requires Terminated(s)
    ensures r.Success? ==> Terminated(r.rest) && |r.rest| < |s|
  {
    match ParseString(SkipWhitespace(s))
    case Failure(overrun) => Failure(overrun)
    case Success(key, afterKey) =>
      var colon := SkipWhitespace(afterKey);
      if colon[0] != ':' then Failure(false) else Success(key, SkipWhitespace(colon[1..]))
  }

  /** ... once the member at the front has been parsed. */
  function MembersAfter(key: string, item: Result<Value>, ghost bound: nat, depth: nat): (r: Result<Members>)
    requires item.Success? ==> Terminated(item.rest) && |item.rest| < bound
    ensures r.Success? ==> Terminated(r.rest) && |r.rest| < bound
    decreases bound, 1
  {
    if item.Failure? then Failure(item.overrun)
    else
      var t := SkipWhitespace(item.rest);
      if t[0] == ',' then
        match ParseMembers(t[1..], depth)
        case Failure(overrun) => Failure(overrun)
        case Success(members, end) => Success([Entry(key, item.value)] + members, end)
      else if t[0] == '}' then Success([Entry(key, item.value)], t[1..])
      else Failure(false)
  }

  // ---- Parsing step by step ------------------------------------------------------------------

  /** The three constants. */
  function ParseConstant(s: string): (r: Result<Value>)
    requires Terminated(s)
    ensures r.Success? ==> Terminated(r.rest) && |r.rest| < |s|
  {
    if StartsWith(s, "null") then Success(Null, AfterWord(s, "null"))
    else if StartsWith(s, "false") then Success(False, AfterWord(s, "false"))
    else if StartsWith(s, "true") then Success(True, AfterWord(s, "true"))
    else Failure(false)
  }

  /** The kind of a value shows in its first byte. */
  lemma ValueByFirstByte(s: string, depth: nat)
    requires Terminated(s)
    ensures s[0] == '[' ==> ParseValue(s, depth) == ParseArray(s, depth)
    ensures s[0] == '{' ==> ParseValue(s, depth) == ParseObject(s, depth)
    ensures s[0] == '-' || IsDigit(s[0]) ==> ParseValue(s, depth) == ParseNumber(s)
    ensures s[0] == QUOTE ==> ParseValue(s, depth) == AsValue(ParseString(s))
    ensures s[0] != '[' && s[0] != '{' && s[0] != '-' && !IsDigit(s[0]) && s[0] != QUOTE ==>
              ParseValue(s, depth) == ParseConstant(s)
  {
    hide ParseArray, ParseObject, ParseNumber, ParseString;
    assert forall word: string :: word != "" && StartsWith(s, word) ==> s[0] == s[..|word|][0] == word[0];
  }

  function AsValue(r: Result<string>): Result<Value> {
    match r
    case Failure(overrun) => Failure(overrun)
    case Success(text, rest) => Success(String(text), rest)
  }

  /** More elements in front of what has been parsed. */
  function Extend<T>(first: seq<T>, r: Result<seq<T>>): Result<seq<T>> {
    match r
    case Failure(overrun) => Failure(overrun)
    case Success(more, rest) => Success(first + more, rest)
  }

  /** One turn of the element loop. */
  lemma ItemsStep(s: string, depth: nat)
    requires Terminated(s)
    ensures var r := ParseValue(SkipWhitespace(s), depth);
            && (r.Failure? ==> ParseItems(s, depth) == Failure(r.overrun))
            && (r.Success? ==>
                  var t := SkipWhitespace(r.rest);
                  && (t[0] == ',' ==> ParseItems(s, depth) == Extend([r.value], ParseItems(t[1..], depth)))
                  && (t[0] == ']' ==> ParseItems(s, depth) == Success([r.value], t[1..]))
                  && (t[0] != ',' && t[0] != ']' ==> ParseItems(s, depth) == Failure(false)))
  {
    hide ParseValue, SkipWhitespace;
  }

  /** One turn of the member loop. */
  lemma MembersStep(s: string, depth: nat)
    requires Terminated(s)
    ensures ParseMembers(s, depth) == MembersStepResult(s, depth)
  {
    hide ParseValue, ParseKey, SkipWhitespace;
  }

  ghost function MembersStepResult(s: string, depth: nat): Result<Members>
    requires Terminated(s)
  {
    var k := ParseKey(s);
    if k.Failure? then Failure(k.overrun)
    else
      var r := ParseValue(k.rest, depth);
      if r.Failure? then Failure(r.overrun)
      else
        var t := SkipWhitespace(r.rest);
        if t[0] == ',' then Extend([Entry(k.value, r.value)], ParseMembers(t[1..], depth))
        else if t[0] == '}' then Success([Entry(k.value, r.value)], t[1..])
        else Failure(false)
  }

  /** The members at the front, if any, and the closing brace. */
  function MembersThroughEnd(t: string, depth: nat): (r: Result<Members>)
    requires Terminated(t)
    ensures r.Success? ==> Terminated(r.rest) && |r.rest| < |t|
  {
    if t[0] == '}' then Success([], t[1..]) else ParseMembers(t, depth)
  }

  /** An object, behind its opening brace. */
  lemma ObjectStep(s: string, depth: nat)
    requires Terminated(s) && s[0] == '{' && depth < NESTING_LIMIT
    ensures |s| > 1
    ensures var r := MembersThroughEnd(SkipWhitespace(s[1..]), depth + 1);
            && (r.Failure? ==> ParseObject(s, depth) == Failure(r.overrun))
            && (r.Success? ==> ParseObject(s, depth) == Success(Object(r.value), r.rest))
  {
    hide ParseMembers, SkipWhitespace;
  }

  /** The elements at the front, if any, and the closing bracket. */
  function ItemsThroughEnd(t: string, depth: nat): (r: Result<seq<Value>>)
    requires Terminated(t)
    ensures r.Success? ==> Terminated(r.rest) && |r.rest| < |t|
  {
    if t[0] == ']' then Success([], t[1..]) else ParseItems(t, depth)
  }

  /** An array, behind its opening bracket. */
  lemma ArrayStep(s: string, depth: nat)
    requires Terminated(s) && s[0] == '[' && depth < NESTING_LIMIT
    ensures |s| > 1
    ensures var r := ItemsThroughEnd(SkipWhitespace(s[1..]), depth + 1);
            && (r.Failure? ==> ParseArray(s, depth) == Failure(r.overrun))
            && (r.Success? ==> ParseArray(s, depth) == Success(Array(r.value), r.rest))
  {
    hide ParseItems, SkipWhitespace;
  }

  /** Neither arrays nor objects are entered at the nesting limit. */
  lemma TooDeep(s: string, depth: nat)
    requires Terminated(s) && depth >= NESTING_LIMIT
    ensures s[0] == '[' ==> ParseArray(s, depth) == Failure(false)
    ensures s[0] == '{' ==> ParseObject(s, depth) == Failure(false)
  {}

  // ---- The whole text -----------------------------------------------------------------------

  const BYTE_ORDER_MARK: string := [0xEF as char, 0xBB as char, 0xBF as char]

  /** `skip_utf8_bom`: only in a buffer of more than four bytes. */
  function SkipByteOrderMark(s: string): (r: string)
    requires Terminated(s)
    ensures Terminated(r)
  {
    if |s| > 4 && StartsWith(s, BYTE_ORDER_MARK) then s[3..] else s
  }

  /** `cJSON_ParseWithOpts` on the C string `text`. */
  function ParseText(text: string, requireNullTerminated: bool): Option<Value> {
    match ParseValue(SkipWhitespace(SkipByteOrderMark(text + [NUL])), 0)
    case Failure(_) => None
    case Success(v, rest) =>
      if requireNullTerminated && SkipWhitespace(rest)[0] != NUL then None else Some(v)
  }
}

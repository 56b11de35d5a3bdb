/**
 Printing and then parsing gives the tree back, for both formats; the nesting limit of the parser is
 the only thing in the way.
 */
module RoundTrip {
  import opened CString
  import opened Digits
  import opened Json
  import opened Render
  import opened Parse

  // ---- Whitespace ---------------------------------------------------------------------------

  lemma {:induction false} SkipsBlank(blank: string, s: string)
    requires Blank(blank) && Terminated(s)
    ensures Terminated(blank + s)
    ensures SkipWhitespace(blank + s) == SkipWhitespace(s)
  {
    if blank == [] {
      assert blank + s == s;
    } else {
      assert (blank + s)[1..] == blank[1..] + s;
      SkipsBlank(blank[1..], s);
    }
  }

  lemma SkipsTo(blank: string, s: string)
    requires Blank(blank) && Terminated(s) && s[0] > ' '
    ensures Terminated(blank + s)
    ensures SkipWhitespace(blank + s) == s
  {
    SkipsBlank(blank, s);
  }

  // ---- Strings ------------------------------------------------------------------------------

  /** Bytes that are neither quote nor backslash are passed over one by one. */
  lemma {:induction false} PassesPlain(plain: string, s: string)
    requires QUOTE !in plain && BACKSLASH !in plain
    ensures FindClose(plain + s) == match FindClose(s) case None => None case Some(n) => Some(|plain| + n)
  {
    if plain == [] {
      assert plain + s == s;
    } else {
      assert (plain + s)[1..] == plain[1..] + s;
      assert plain[0] in plain;
      PassesPlain(plain[1..], s);
    }
  }

  lemma HexDigitReadsBack(d: nat)
    requires d < 16
    ensures HexValue(HexDigit(d)) == Some(d)
    ensures HexDigit(d) != QUOTE && HexDigit(d) != BACKSLASH
  {}

  /** The first pass steps over one escaped byte. */
  lemma ClosePassesChar(c: char, s: string)
    ensures FindClose(EscapeChar(c) + s) == match FindClose(s) case None => None case Some(n) => Some(|EscapeChar(c)| + n)
  {
    var e := EscapeChar(c);
    if |e| == 6 {
      HexDigitReadsBack(c as int / 16);
      HexDigitReadsBack(c as int % 16);
      PassesPlain(e[2..], s);
      assert (e + s)[2..] == e[2..] + s;
    } else if |e| == 2 {
      assert (e + s)[2..] == s;
    } else {
      assert (e + s)[1..] == s;
    }
  }

  lemma {:induction false} ClosesAtQuote(text: string, post: string)
    ensures FindClose(Escape(text) + ([QUOTE] + post)) == Some(|Escape(text)|)
  {
    if text == [] {
      assert Escape(text) + ([QUOTE] + post) == [QUOTE] + post;
    } else {
      ClosesAtQuote(text[1..], post);
      ClosePassesChar(text[0], Escape(text[1..]) + ([QUOTE] + post));
      assert Escape(text) + ([QUOTE] + post) == EscapeChar(text[0]) + (Escape(text[1..]) + ([QUOTE] + post));
    }
  }

  /** The second pass turns one escaped byte back. */
  lemma UnescapesChar(c: char, s: string, room: nat)
    requires 0 < c as int < 256 && room < |s|
    ensures Unescape(EscapeChar(c) + s, |EscapeChar(c)| + room) == Prepend([c], Unescape(s, room))
  {
    var e := EscapeChar(c);
    var t, n := e + s, |e| + room;
    if |e| == 6 {
      HexDigitReadsBack(c as int / 16);
      HexDigitReadsBack(c as int % 16);
      assert t[2..6] == e[2..];
      assert HexValue('0') == Some(0);
      assert ParseHex4(t[2..6]) == c as int;
      assert t[6..] == s;
      assert Utf16Literal(t, n) == Literal([c], 6);
    } else if |e| == 2 {
      assert t[2..] == s;
      assert SimpleEscape(t[1]) == Some(c) && t[1] != 'u';
      if room == 0 { assert n == 2; }
    } else {
      assert t[1..] == s;
    }
  }

  lemma UnescapesNothing(post: string)
    ensures Unescape(Escape([]) + ([QUOTE] + post), |Escape([])|) == Some([])
  {
    assert Escape([]) == [];
  }

  lemma EscapedFront(text: string, post: string)
    requires text != []
    ensures text == [text[0]] + text[1..]
    ensures Escape(text) + ([QUOTE] + post) == EscapeChar(text[0]) + (Escape(text[1..]) + ([QUOTE] + post))
    ensures |Escape(text)| == |EscapeChar(text[0])| + |Escape(text[1..])|
  {
    Associative(EscapeChar(text[0]), Escape(text[1..]), [QUOTE] + post);
  }

  lemma {:induction false} UnescapesBack(text: string, post: string)
    requires IsCString(text)
    ensures Unescape(Escape(text) + ([QUOTE] + post), |Escape(text)|) == Some(text)
  {
    if text == [] {
      UnescapesNothing(post);
    } else {
      hide Unescape, Escape, EscapeChar;
      UnescapesBack(text[1..], post);
      EscapedFront(text, post);
      UnescapesChar(text[0], Escape(text[1..]) + ([QUOTE] + post), |Escape(text[1..])|);
    }
  }

  lemma {:induction false} NothingCut(text: string)
    requires IsCString(text)
    ensures UpToNul(text) == text
  {
    if text != [] { NothingCut(text[1..]); }
  }

  lemma StringBack(text: string, post: string)
    requires IsCString(text) && Terminated(post)
    ensures Terminated(RenderString(text) + post)
    ensures ParseString(RenderString(text) + post) == Success(text, post)
  {
    var s := RenderString(text) + post;
    assert s[1..] == Escape(text) + ([QUOTE] + post);
    hide Escape, FindClose, Unescape, UpToNul;
    ClosesAtQuote(text, post);
    UnescapesBack(text, post);
    NothingCut(text);
    assert s[|Escape(text)| + 2..] == post;
  }

  // ---- Numbers ------------------------------------------------------------------------------

  /** What may follow a number without running into it. */
  predicate Delimits(post: string) {
    Terminated(post) && !IsNumberChar(post[0])
  }

  lemma {:induction false} DecimalLength(n: nat, k: nat)
    requires 0 < k && n < Ten(k)
    ensures |Decimal(n)| <= k
    decreases k
  {
    if n >= 10 {
      DecimalLength(n / 10, k - 1);
    }
  }

  function Ten(k: nat): nat {
    if k == 0 then 1 else 10 * Ten(k - 1)
  }

  lemma {:induction false} NumberTextTakes(text: string, post: string, limit: nat)
    requires Delimits(post) && |text| <= limit && forall i :: 0 <= i < |text| ==> IsNumberChar(text[i])
    ensures NumberText(text + post, limit) == text
  {
    if text == [] {
      assert text + post == post;
    } else {
      assert (text + post)[1..] == text[1..] + post;
      NumberTextTakes(text[1..], post, limit - 1);
    }
  }

  lemma {:induction false} DigitsToTheEnd(s: string, i: nat)
    requires i <= |s| && AllDigits(s[i..])
    ensures DigitsEnd(s, i) == |s|
    decreases |s| - i
  {
    if i < |s| {
      assert s[i..][0] == s[i];
      assert s[i + 1..] == s[i..][1..];
      DigitsToTheEnd(s, i + 1);
    }
  }

  lemma ConvertsWhole(num: real)
    requires IsWhole(num)
    ensures StringToDouble(RenderNumber(num)) == Decimals(num, |RenderNumber(num)|)
  {
    var n := if num.Floor < 0 then -num.Floor else num.Floor;
    var s := RenderNumber(num);
    var start := if num.Floor < 0 then 1 else 0;
    assert s[start..] == Decimal(n);
    assert IsDigit(Decimal(n)[0]) && s[start] == Decimal(n)[0];
    DecimalReadsBack(n);
    DigitsToTheEnd(s, start);
    assert SkipSign(s, 0) == start;
    assert s[start..|s|] + s[|s|..|s|] == Decimal(n);
    assert Negate(n, s[0] == '-') == num.Floor;
    assert num.Floor as real * Pow10(0) == num;
  }

  lemma NumberBack(num: real, post: string)
    requires IsWhole(num) && Delimits(post)
    ensures Terminated(RenderNumber(num) + post)
    ensures ParseNumber(RenderNumber(num) + post) == Success(Number(num), post)
  {
    var n := if num.Floor < 0 then -num.Floor else num.Floor;
    assert Ten(3) == 1_000 && Ten(6) == 1000 * Ten(3) && Ten(9) == 1000 * Ten(6) && Ten(12) == 1000 * Ten(9) && Ten(15) == 1000 * Ten(12);
    DecimalLength(n, 15);
    NumberTextTakes(RenderNumber(num), post, 63);
    ConvertsWhole(num);
    assert (RenderNumber(num) + post)[|RenderNumber(num)|..] == post;
  }

  // ---- Values -------------------------------------------------------------------------------

  /** The first byte of a rendered value tells the parser what is coming. */
  lemma RenderStarts(v: Value, format: bool, d: nat)
    requires Printable(v)
    ensures var r := RenderValue(v, format, d);
            && r != [] && r[0] > ' '
            && (v.Null? ==> r[0] == 'n') && (v.False? ==> r[0] == 'f') && (v.True? ==> r[0] == 't')
            && (v.String? ==> r[0] == QUOTE)
            && (v.Number? ==> r[0] == '-' || IsDigit(r[0]))
            && (v.Array? ==> r[0] == '[') && (v.Object? ==> r[0] == '{')
  {}

  lemma WordBack(word: string, post: string)
    requires word == "null" || word == "false" || word == "true"
    requires Terminated(post)
    ensures Terminated(word + post) && StartsWith(word + post, word)
    ensures AfterWord(word + post, word) == post
    ensures (word + post)[0] == word[0]
  {
    assert (word + post)[..|word|] == word;
  }

  lemma OtherWord(s: string, word: string)
    requires s != [] && word != [] && s[0] != word[0]
    ensures !StartsWith(s, word)
  {
    assert |word| <= |s| ==> s[..|word|][0] == s[0];
  }

  lemma NoWord(s: string)
    requires Terminated(s) && s[0] != 'n' && s[0] != 'f' && s[0] != 't'
    ensures !StartsWith(s, "null") && !StartsWith(s, "false") && !StartsWith(s, "true")
  {
    OtherWord(s, "null");
    OtherWord(s, "false");
    OtherWord(s, "true");
  }

  lemma ConstantBack(v: Value, format: bool, d: nat, post: string, depth: nat)
    requires v.Null? || v.False? || v.True?
    requires Terminated(post)
    ensures Terminated(RenderValue(v, format, d) + post)
    ensures ParseValue(RenderValue(v, format, d) + post, depth) == Success(v, post)
  {
    var s := RenderValue(v, format, d) + post;
    WordBack(RenderValue(v, format, d), post);
    if !v.Null? { OtherWord(s, "null"); }
    if v.True? { OtherWord(s, "false"); }
  }

  lemma {:induction false} ValueBack(v: Value, format: bool, d: nat, post: string, depth: nat)
    requires Printable(v) && Delimits(post) && depth <= NESTING_LIMIT
    ensures Terminated(RenderValue(v, format, d) + post)
    ensures ParseValue(RenderValue(v, format, d) + post, depth) ==
              if depth + Nesting(v) <= NESTING_LIMIT then Success(v, post) else Failure(false)
    decreases v, 0
  {
    var s := RenderValue(v, format, d) + post;
    RenderStarts(v, format, d);
    if v.Null? || v.False? || v.True? {
      ConstantBack(v, format, d, post, depth);
    } else {
      assert s[0] == RenderValue(v, format, d)[0];
      NoWord(s);
      match v
      case String(text) => StringBack(text, post);
      case Number(num) => NumberBack(num, post);
      case Array(_) => ArrayBack(v, format, d, post, depth);
      case Object(_) => ObjectBack(v, format, d, post, depth);
    }
  }

  // ---- Arrays -------------------------------------------------------------------------------

  lemma TerminatedTail(s: string, t: string)
    requires Terminated(t)
    ensures Terminated(s + t)
  {}

  function Blanks(format: bool): (r: string)
    ensures Blank(r)
  {
    if format then " " else ""
  }

  lemma ItemsShape(items: seq<Value>, format: bool, d: nat, close: string)
    requires items != []
    ensures |items| == 1 ==> RenderItems(items, format, d) + close == RenderValue(items[0], format, d) + close
    ensures |items| > 1 ==>
              RenderItems(items, format, d) + close ==
                RenderValue(items[0], format, d) + ([','] + (Blanks(format) + (RenderItems(items[1..], format, d) + close)))
  {
    var first, rest := RenderValue(items[0], format, d), RenderItems(items[1..], format, d);
    if |items| == 1 {
      assert first + "" == first;
    } else {
      Associative(first, Separator(format) + rest, close);
      Associative(Separator(format), rest, close);
      assert Separator(format) == [','] + Blanks(format);
      Associative([','], Blanks(format), rest + close);
    }
  }

  lemma ArrayShape(v: Value, format: bool, d: nat, post: string)
    requires v.Array?
    ensures RenderValue(v, format, d) + post == ['['] + (RenderItems(v.items, format, d + 1) + ([']'] + post))
  {
    var items := RenderItems(v.items, format, d + 1);
    Associative(['['] + items, [']'], post);
    Associative(['['], items, [']'] + post);
  }

  /** What `ParseArray` does behind the opening bracket. */
  lemma ArrayTurn(inner: string, depth: nat)
    requires Terminated(inner) && inner[0] > ' '
    ensures var s := ['['] + inner;
            && Terminated(s) && s[0] == '['
            && (depth >= NESTING_LIMIT ==> ParseArray(s, depth) == Failure(false))
            && (depth < NESTING_LIMIT && inner[0] == ']' ==> ParseArray(s, depth) == Success(Array([]), inner[1..]))
            && (depth < NESTING_LIMIT && inner[0] != ']' ==>
                  var p := ParseItems(inner, depth + 1);
                  ParseArray(s, depth) == if p.Failure? then Failure(p.overrun) else Success(Array(p.value), p.rest))
  {
    hide ParseItems;
    NothingInFront(inner);
    assert (['['] + inner)[1..] == inner;
    TerminatedTail(['['], inner);
  }

  lemma {:induction false} ArrayBack(v: Value, format: bool, d: nat, post: string, depth: nat)
    requires v.Array? && Printable(v) && Terminated(post) && depth <= NESTING_LIMIT
    ensures Terminated(RenderValue(v, format, d) + post) && (RenderValue(v, format, d) + post)[0] == '['
    ensures ParseArray(RenderValue(v, format, d) + post, depth) ==
              if depth + Nesting(v) <= NESTING_LIMIT then Success(v, post) else Failure(false)
    decreases v, 0, 0
  {
    hide ParseValue, ParseItems, ParseArray, RenderValue, RenderItems;
    var close := [']'] + post;
    var inner := RenderItems(v.items, format, d + 1) + close;
    ArrayShape(v, format, d, post);
    TerminatedTail([']'], post);
    TerminatedTail(RenderItems(v.items, format, d + 1), close);
    if v.items == [] {
      NoItems(format, d + 1, close);
      ArrayTurn(inner, depth);
    } else {
      ItemsStart(v.items, format, d + 1, close);
      ArrayTurn(inner, depth);
      if depth < NESTING_LIMIT {
        ItemsBack(v.items, format, d + 1, post, depth + 1);
      }
    }
  }

  lemma NoItems(format: bool, d: nat, close: string)
    ensures RenderItems([], format, d) + close == close
  {}

  lemma ItemsStart(items: seq<Value>, format: bool, d: nat, close: string)
    requires items != [] && Printable(items[0])
    ensures var t := RenderItems(items, format, d) + close; t != [] && t[0] > ' ' && t[0] != ']'
  {
    RenderStarts(items[0], format, d);
    ItemsShape(items, format, d, close);
    hide RenderItems, RenderValue;
  }

  lemma ItemsTurn(s: string, depth: nat)
    requires Terminated(s) && s[0] > ' '
    ensures ParseItems(s, depth) == ItemsAfter(ParseValue(s, depth), |s|, depth)
    ensures ParseValue(s, depth) == Failure(false) ==> ParseItems(s, depth) == Failure(false)
  {
    hide ParseValue;
    SkipsTo([], s);
    assert [] + s == s;
  }

  lemma ItemsEnd(item: Value, post: string, bound: nat, depth: nat)
    requires Terminated(post) && |post| + 1 < bound
    ensures ItemsAfter(Success(item, [']'] + post), bound, depth) == Success([item], post)
  {
    TerminatedTail([']'], post);
    SkipsTo([], [']'] + post);
    assert [] + ([']'] + post) == [']'] + post;
  }

  lemma ItemsGoOn(item: Value, blank: string, rest: string, bound: nat, depth: nat)
    requires Terminated(rest) && Blank(blank) && 1 + |blank + rest| < bound
    ensures ItemsAfter(Success(item, [','] + (blank + rest)), bound, depth) ==
              match ParseItems(rest, depth)
              case Failure(overrun) => Failure(overrun)
              case Success(items, end) => Success([item] + items, end)
  {
    hide ParseValue;
    var after := [','] + (blank + rest);
    TerminatedTail(blank, rest);
    TerminatedTail([','], blank + rest);
    SkipsTo([], after);
    assert [] + after == after;
    SkipsBlank(blank, rest);
    SameAfterBlank(blank + rest, rest, depth);
    assert after[1..] == blank + rest;
  }

  lemma {:induction false} ItemsBack(items: seq<Value>, format: bool, d: nat, post: string, depth: nat)
    requires items != [] && forall i :: 0 <= i < |items| ==> Printable(items[i])
    requires Terminated(post) && depth <= NESTING_LIMIT
    ensures Terminated(RenderItems(items, format, d) + ([']'] + post))
    ensures ParseItems(RenderItems(items, format, d) + ([']'] + post), depth) ==
              if depth + ItemsNesting(items) <= NESTING_LIMIT then Success(items, post) else Failure(false)
    decreases items, 1
  {
    hide ParseValue, ParseItems, ItemsAfter, RenderValue, RenderItems, SkipWhitespace, Blanks;
    var close := [']'] + post;
    var s := RenderItems(items, format, d) + close;
    RenderStarts(items[0], format, d);
    ItemsShape(items, format, d, close);
    TerminatedTail(RenderItems(items, format, d), close);
    ItemsTurn(s, depth);
    if |items| == 1 {
      ValueBack(items[0], format, d, close, depth);
      ItemsEnd(items[0], post, |s|, depth);
      assert items == [items[0]] && ItemsNesting(items[1..]) == 0;
    } else {
      var rest := RenderItems(items[1..], format, d) + close;
      var blank := Blanks(format);
      TerminatedTail(RenderItems(items[1..], format, d), close);
      TerminatedTail(blank, rest);
      TerminatedTail([','], blank + rest);
      ItemsBack(items[1..], format, d, post, depth);
      ValueBack(items[0], format, d, [','] + (blank + rest), depth);
      ItemsGoOn(items[0], blank, rest, |s|, depth);
      assert items == [items[0]] + items[1..];
    }
  }

  // ---- Objects ------------------------------------------------------------------------------

  lemma SameKeyAfterBlank(s: string, t: string)
    requires Terminated(s) && Terminated(t) && SkipWhitespace(s) == SkipWhitespace(t)
    ensures ParseKey(s) == ParseKey(t)
  {
    hide ParseString, SkipWhitespace;
  }

  /** Leading whitespace makes no difference to the element loop. */
  lemma SameAfterBlank(s: string, t: string, depth: nat)
    requires Terminated(s) && Terminated(t) && SkipWhitespace(s) == SkipWhitespace(t)
    ensures ParseItems(s, depth) == ParseItems(t, depth)
    ensures ParseMembers(s, depth) == ParseMembers(t, depth)
  {
    hide ParseValue, ParseString, ParseKey;
    assert ParseKey(s) == ParseKey(t) by {
      SameKeyAfterBlank(s, t);
    }
  }

  function Newline(format: bool): string {
    if format then [NEWLINE] else ""
  }

  lemma Regroup(a: string, b: string, c: string, d: string, e: string, f: string, g: string)
    ensures (((((a + b) + c) + d) + e) + f) + g == a + (b + (c + (d + (e + (f + g)))))
  {
    Associative(((((a + b) + c) + d) + e), f, g);
    Associative((((a + b) + c) + d), e, f + g);
    Associative(((a + b) + c), d, e + (f + g));
    Associative(a + b, c, d + (e + (f + g)));
    Associative(a, b, c + (d + (e + (f + g))));
  }

  lemma ObjectShape(v: Value, format: bool, d: nat, post: string)
    requires v.Object?
    ensures RenderValue(v, format, d) + post ==
              ['{'] + (Newline(format) + (RenderMembers(v.members, format, d + 1) + (Indent(format, d) + (['}'] + post))))
  {
    hide RenderMembers;
    var members := RenderMembers(v.members, format, d + 1);
    var open := if format then "{\n" else "{";
    assert open == ['{'] + Newline(format);
    Regroup(['{'], Newline(format), members, Indent(format, d), ['}'], [], post);
    assert (((['{'] + Newline(format)) + members) + Indent(format, d)) + ['}'] + [] == RenderValue(v, format, d);
    assert [] + post == post;
  }

  /** What follows the value of the first member: the end of its line and the members behind it. */
  function AfterMember(members: Members, format: bool, d: nat, close: string): string
    requires members != []
  {
    RenderEnd(|members| == 1, format) + (RenderMembers(members[1..], format, d) + close)
  }

  /** The first member from its key on. */
  function FromKey(members: Members, format: bool, d: nat, close: string): string
    requires members != []
  {
    RenderString(members[0].key)
    + (Colon(format) + (RenderValue(members[0].item, format, d) + AfterMember(members, format, d, close)))
  }

  lemma MembersShape(members: Members, format: bool, d: nat, close: string)
    requires members != [] && Terminated(close)
    ensures RenderMembers(members, format, d) + close == Indent(format, d) + FromKey(members, format, d, close)
    ensures Terminated(AfterMember(members, format, d, close))
    ensures Terminated(RenderValue(members[0].item, format, d) + AfterMember(members, format, d, close))
    ensures Terminated(FromKey(members, format, d, close)) && FromKey(members, format, d, close)[0] == QUOTE > ' '
  {
    hide RenderValue;
    var key, value, end := RenderString(members[0].key), RenderValue(members[0].item, format, d), RenderEnd(|members| == 1, format);
    var rest := RenderMembers(members[1..], format, d);
    Regroup(Indent(format, d), key, Colon(format), value, end, rest, close);
    assert RenderKey(members[0].key, format, d) == (Indent(format, d) + key) + Colon(format);
    TerminatedTail(rest, close);
    TerminatedTail(end, rest + close);
    TerminatedTail(value, end + (rest + close));
    TerminatedTail(Colon(format), value + (end + (rest + close)));
    TerminatedTail(key, Colon(format) + (value + (end + (rest + close))));
  }

  lemma ObjectTurn(newline: string, inner: string, depth: nat)
    requires Blank(newline) && Terminated(inner)
    ensures ParseObject(['{'] + (newline + inner), depth) ==
              if depth >= NESTING_LIMIT then Failure(false)
              else if SkipWhitespace(inner)[0] == '}' then Success(Object([]), SkipWhitespace(inner)[1..])
              else
                match ParseMembers(SkipWhitespace(inner), depth + 1)
                case Failure(overrun) => Failure(overrun)
                case Success(members, rest) => Success(Object(members), rest)
  {
    hide ParseValue, ParseMembers;
    SkipsBlank(newline, inner);
    assert (['{'] + (newline + inner))[1..] == newline + inner;
  }

  lemma EmptyObjectBack(format: bool, d: nat, post: string, depth: nat)
    requires Terminated(post)
    ensures var inner := RenderMembers([], format, d + 1) + (Indent(format, d) + (['}'] + post));
            Terminated(inner) && SkipWhitespace(inner) == ['}'] + post && (['}'] + post)[1..] == post
  {
    hide Indent;
    var close := Indent(format, d) + (['}'] + post);
    TerminatedTail(['}'], post);
    SkipsTo(Indent(format, d), ['}'] + post);
    assert [] + close == close;
  }

  lemma {:induction false} ObjectBack(v: Value, format: bool, d: nat, post: string, depth: nat)
    requires v.Object? && Printable(v) && Terminated(post) && depth <= NESTING_LIMIT
    ensures Terminated(RenderValue(v, format, d) + post) && (RenderValue(v, format, d) + post)[0] == '{'
    ensures ParseObject(RenderValue(v, format, d) + post, depth) ==
              if depth + Nesting(v) <= NESTING_LIMIT then Success(v, post) else Failure(false)
    decreases v, 0, 1
  {
    hide ParseValue, ParseMembers, ParseObject, RenderValue, RenderMembers, SkipWhitespace, Indent, Newline;
    var close := Indent(format, d) + (['}'] + post);
    var inner := RenderMembers(v.members, format, d + 1) + close;
    ObjectShape(v, format, d, post);
    TerminatedTail(['}'], post);
    TerminatedTail(Indent(format, d), ['}'] + post);
    TerminatedTail(RenderMembers(v.members, format, d + 1), close);
    TerminatedTail(Newline(format), inner);
    TerminatedTail(['{'], Newline(format) + inner);
    BlankLayout(format, d);
    ObjectTurn(Newline(format), inner, depth);
    if v.members == [] {
      EmptyObjectBack(format, d, post, depth);
      assert MembersNesting(v.members) == 0;
    } else {
      FullObjectBack(v, format, d, post, depth);
    }
  }

  /** Behind the opening brace the parser comes to the first key. */
  lemma FirstKey(members: Members, format: bool, d: nat, post: string)
    requires members != [] && Terminated(post)
    ensures var inner := RenderMembers(members, format, d + 1) + (Indent(format, d) + (['}'] + post));
            && Terminated(inner)
            && Terminated(SkipWhitespace(inner)) && SkipWhitespace(inner)[0] == QUOTE > ' '
            && SkipWhitespace(SkipWhitespace(inner)) == SkipWhitespace(inner)
  {
    hide *;
    var close := Indent(format, d) + (['}'] + post);
    TerminatedTail(['}'], post);
    TerminatedTail(Indent(format, d), ['}'] + post);
    MembersShape(members, format, d + 1, close);
    SkipsTo(Indent(format, d + 1), FromKey(members, format, d + 1, close));
    NothingInFront(FromKey(members, format, d + 1, close));
  }

  lemma {:induction false} FullObjectBack(v: Value, format: bool, d: nat, post: string, depth: nat)
    requires v.Object? && v.members != [] && Printable(v) && Terminated(post) && depth <= NESTING_LIMIT
    ensures var inner := RenderMembers(v.members, format, d + 1) + (Indent(format, d) + (['}'] + post));
            && Terminated(inner)
            && SkipWhitespace(inner)[0] == QUOTE
            && (depth < NESTING_LIMIT ==>
                  ParseMembers(SkipWhitespace(inner), depth + 1) ==
                    if depth + Nesting(v) <= NESTING_LIMIT then Success(v.members, post) else Failure(false))
    decreases v, 0, 0
  {
    hide ParseValue, ParseMembers, RenderValue, RenderMembers, SkipWhitespace, Indent, ParseKey, MembersAfter, Terminated, Printable;
    ObjectParts(v);
    FirstKey(v.members, format, d, post);
    if depth < NESTING_LIMIT {
      var inner := RenderMembers(v.members, format, d + 1) + (Indent(format, d) + (['}'] + post));
      BlankLayout(format, d);
      SameAfterBlank(SkipWhitespace(inner), inner, depth + 1);
      MembersBack(v.members, format, d + 1, Indent(format, d), post, depth + 1);
    }
  }

  lemma ObjectParts(v: Value)
    requires v.Object? && Printable(v)
    ensures Nesting(v) == 1 + MembersNesting(v.members)
    ensures forall i :: 0 <= i < |v.members| ==> IsCString(v.members[i].key) && Printable(v.members[i].item)
    ensures v == Object(v.members)
  {}

  lemma BlankLayout(format: bool, d: nat)
    ensures Blank(Newline(format)) && (!format ==> Indent(format, d) == "")
  {}

  /** Behind the value of the last member comes the closing brace. */
  lemma AfterLast(members: Members, format: bool, d: nat, tail: string, post: string)
    requires |members| == 1 && Terminated(post) && Blank(tail) && (!format ==> tail == "")
    ensures var after := AfterMember(members, format, d, tail + (['}'] + post));
            Delimits(after) && SkipWhitespace(after) == ['}'] + post
  {
    var after := AfterMember(members, format, d, tail + (['}'] + post));
    assert RenderMembers(members[1..], format, d) == "";
    assert "" + (tail + (['}'] + post)) == tail + (['}'] + post);
    assert RenderEnd(true, format) == Newline(format);
    Associative(Newline(format), tail, ['}'] + post);
    SkipsTo(Newline(format) + tail, ['}'] + post);
    assert !format ==> after == ['}'] + post;
  }

  /** Behind any other value comes a comma. */
  lemma AfterOther(members: Members, format: bool, d: nat, close: string)
    requires |members| > 1 && Terminated(close)
    ensures var rest := RenderMembers(members[1..], format, d) + close;
            && AfterMember(members, format, d, close) == [','] + (Newline(format) + rest)
            && Terminated(rest)
            && Delimits(AfterMember(members, format, d, close))
  {
    var rest := RenderMembers(members[1..], format, d) + close;
    assert RenderEnd(false, format) == [','] + Newline(format);
    Associative([','], Newline(format), rest);
    TerminatedTail(RenderMembers(members[1..], format, d), close);
    TerminatedTail([','] + Newline(format), rest);
  }

  /** What `ParseKey` does, step by step. */
  lemma KeyParses(s: string, quoted: string, key: string, afterKey: string, value: string)
    requires Terminated(s) && SkipWhitespace(s) == quoted
    requires ParseString(quoted) == Success(key, afterKey)
    requires Terminated(afterKey) && SkipWhitespace(afterKey) == afterKey && afterKey[0] == ':'
    requires Terminated(afterKey[1..]) && SkipWhitespace(afterKey[1..]) == value
    ensures ParseKey(s) == Success(key, value)
  {
    hide SkipWhitespace, ParseString;
  }

  function ColonBlanks(format: bool): (r: string)
    ensures Blank(r)
  {
    if format then [TAB] else ""
  }

  lemma ColonShape(format: bool, value: string)
    ensures var afterKey := Colon(format) + value;
            afterKey[0] == ':' && afterKey[0] > ' ' && afterKey[1..] == ColonBlanks(format) + value
  {}

  lemma NothingInFront(s: string)
    requires Terminated(s) && s[0] > ' '
    ensures SkipWhitespace(s) == s
  {
    SkipsTo([], s);
    assert [] + s == s;
  }

  /** The key of a member and its colon are read back. */
  lemma KeyBack(blank: string, key: string, format: bool, value: string)
    requires Blank(blank) && IsCString(key) && Terminated(value) && value[0] > ' '
    ensures var s := blank + (RenderString(key) + (Colon(format) + value));
            Terminated(s) && ParseKey(s) == Success(key, value)
  {
    hide *;
    var afterKey := Colon(format) + value;
    TerminatedTail(Colon(format), value);
    QuoteFirst(key, afterKey);
    StringBack(key, afterKey);
    SkipsTo(blank, RenderString(key) + afterKey);
    ColonShape(format, value);
    NothingInFront(afterKey);
    SkipsTo(ColonBlanks(format), value);
    KeyParses(blank + (RenderString(key) + afterKey), RenderString(key) + afterKey, key, afterKey, value);
  }

  lemma MemberTurn(blank: string, key: string, format: bool, value: string, depth: nat)
    requires Blank(blank) && IsCString(key) && Terminated(value) && value[0] > ' '
    ensures var s := blank + (RenderString(key) + (Colon(format) + value));
            && Terminated(s)
            && ParseMembers(s, depth) == MembersAfter(key, ParseValue(value, depth), |s|, depth)
  {
    hide ParseValue, ParseKey, RenderString, SkipWhitespace, MembersAfter, Colon, Blank;
    KeyBack(blank, key, format, value);
  }

  lemma QuoteFirst(key: string, s: string)
    ensures var t := RenderString(key) + s; t != [] && t[0] == QUOTE && t[0] > ' '
  {}

  lemma {:induction false} MembersBack(members: Members, format: bool, d: nat, tail: string, post: string, depth: nat)
    requires members != []
    requires forall i :: 0 <= i < |members| ==> IsCString(members[i].key) && Printable(members[i].item)
    requires Terminated(post) && depth <= NESTING_LIMIT && Blank(tail) && (!format ==> tail == "")
    ensures Terminated(RenderMembers(members, format, d) + (tail + (['}'] + post)))
    ensures ParseMembers(RenderMembers(members, format, d) + (tail + (['}'] + post)), depth) ==
              if depth + MembersNesting(members) <= NESTING_LIMIT then Success(members, post) else Failure(false)
    decreases members, 1
  {
    hide ParseValue, ParseMembers, RenderValue, RenderMembers, RenderString, SkipWhitespace, AfterMember, MembersAfter, Newline,
      Indent, Blank, Delimits, Extend;
    var close := tail + (['}'] + post);
    var key, item := members[0].key, members[0].item;
    var after := AfterMember(members, format, d, close);
    var value := RenderValue(item, format, d) + after;
    TerminatedTail(tail, ['}'] + post);
    MembersShape(members, format, d, close);
    RenderStarts(item, format, d);
    assert value[0] == RenderValue(item, format, d)[0];
    MemberTurn(Indent(format, d), key, format, value, depth);
    MembersStop(key, |RenderMembers(members, format, d) + close|, depth);
    if |members| == 1 {
      AfterLast(members, format, d, tail, post);
      ValueBack(item, format, d, after, depth);
      MembersEnd(key, item, after, post, |RenderMembers(members, format, d) + close|, depth);
      assert members == [Entry(key, item)] && MembersNesting(members[1..]) == 0;
    } else {
      var rest := RenderMembers(members[1..], format, d) + close;
      BlankLayout(format, d);
      AfterOther(members, format, d, close);
      ValueBack(item, format, d, after, depth);
      MembersBack(members[1..], format, d, tail, post, depth);
      MembersGoOn(key, item, Newline(format), rest, |RenderMembers(members, format, d) + close|, depth);
      assert members == [Entry(key, item)] + members[1..];
    }
  }

  lemma MembersStop(key: string, bound: nat, depth: nat)
    ensures MembersAfter(key, Failure(false), bound, depth) == Failure(false)
  {}

  lemma MembersEnd(key: string, item: Value, after: string, post: string, bound: nat, depth: nat)
    requires Terminated(after) && Terminated(post) && SkipWhitespace(after) == ['}'] + post && |after| < bound
    ensures MembersAfter(key, Success(item, after), bound, depth) == Success([Entry(key, item)], post)
  {
    assert (['}'] + post)[1..] == post;
  }

  lemma MembersGoOn(key: string, item: Value, blank: string, rest: string, bound: nat, depth: nat)
    requires Terminated(rest) && Blank(blank) && 1 + |blank + rest| < bound
    ensures MembersAfter(key, Success(item, [','] + (blank + rest)), bound, depth) ==
              match ParseMembers(rest, depth)
              case Failure(overrun) => Failure(overrun)
              case Success(members, end) => Success([Entry(key, item)] + members, end)
  {
    hide ParseValue, ParseString;
    var after := [','] + (blank + rest);
    TerminatedTail(blank, rest);
    TerminatedTail([','], blank + rest);
    SkipsTo([], after);
    assert [] + after == after;
    SkipsBlank(blank, rest);
    SameAfterBlank(blank + rest, rest, depth);
    assert after[1..] == blank + rest;
  }

  // ---- The whole text -----------------------------------------------------------------------

  /**
   Print, then parse: any tree, printed formatted or not, is parsed back with its members in order and
   repeated keys kept, exactly when its nesting is within the limit of the parser.
   */
  lemma PrintThenParse(v: Value, format: bool, requireNullTerminated: bool)
    requires Printable(v)
    ensures ParseText(RenderValue(v, format, 0), requireNullTerminated) ==
              if Nesting(v) <= NESTING_LIMIT then Some(v) else None
  {
    var s := RenderValue(v, format, 0) + [NUL];
    RenderStarts(v, format, 0);
    assert s[0] == RenderValue(v, format, 0)[0];
    ValueBack(v, format, 0, [NUL], 0);
    OtherWord(s, BYTE_ORDER_MARK);
    SkipsTo("", s);
    assert "" + s == s;
  }
}

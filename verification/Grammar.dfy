/**
 Which texts the parser accepts, and as what: a grammar without a parser in it, for everything above
 strings. The parser accepts exactly the texts of the grammar that nest no deeper than its limit.
 */
module Grammar {
  import opened CString
  import opened Digits
  import opened Json
  import opened Numerals
  import opened Overrun
  import opened Parse
  import opened Parsed
  import opened Render
  import opened RoundTrip
  import Truncated

  /** The text of a number: a numeral of at most 63 bytes that begins with a digit or a minus sign. */
  ghost predicate NumberIs(t: string, x: real) {
    exists n :: WellFormed(n) && t == Spell(n) && |t| <= 63 && (t[0] == '-' || IsDigit(t[0])) && Denotes(n, x)
  }

  /** The text of a string, from quote to quote. */
  predicate StringIs(t: string, s: string) {
    |t| >= 2 && t[0] == QUOTE && t[|t| - 1] == QUOTE && FindClose(t[1..]) == Some(|t| - 2)
    && Unescape(t[1..], |t| - 2).Some? && s == UpToNul(Unescape(t[1..], |t| - 2).value)
  }

  /** The text of a value. */
  ghost predicate ValueIs(t: string, v: Value)
    decreases v, 0
  {
    match v
    case Invalid => false
    case Null => t == "null"
    case False => t == "false"
    case True => t == "true"
    case Number(x) => NumberIs(t, x)
    case String(s) => StringIs(t, s)
    case Array(items) =>
      if items == [] then exists b :: Blank(b) && t == ['['] + b + [']']
      else exists u :: t == ['['] + u && ItemsAre(u, items)
    case Object(members) =>
      if members == [] then exists b :: Blank(b) && t == ['{'] + b + ['}']
      else exists u :: t == ['{'] + u && MembersAre(u, members)
  }

  /** Elements and commas, through the closing bracket, with blanks wherever there may be some. */
  ghost predicate ItemsAre(u: string, items: seq<Value>)
    requires items != []
    decreases items, 1
  {
    exists b, t, c, w :: ItemIs(u, items, b, t, c, w)
  }

  ghost predicate ItemIs(u: string, items: seq<Value>, b: string, t: string, c: string, w: string)
    requires items != []
    decreases items, 0
  {
    && Blank(b) && Blank(c) && ValueIs(t, items[0])
    && u == b + (t + (c + w))
    && if |items| == 1 then w == [']'] else w != "" && w[0] == ',' && ItemsAre(w[1..], items[1..])
  }

  /** Names, colons, values and commas, through the closing brace. */
  ghost predicate MembersAre(u: string, members: Members)
    requires members != []
    decreases members, 1
  {
    exists a, b, t, c, w :: MemberIs(u, members, a, b, t, c, w)
  }

  ghost predicate MemberIs(u: string, members: Members, a: string, b: string, t: string, c: string, w: string)
    requires members != []
    decreases members, 0
  {
    && KeyIs(a, members[0].key) && Blank(b) && Blank(c) && ValueIs(t, members[0].item)
    && u == a + (b + (t + (c + w)))
    && if |members| == 1 then w == ['}'] else w != "" && w[0] == ',' && MembersAre(w[1..], members[1..])
  }

  /** A name and its colon. */
  ghost predicate KeyIs(a: string, key: string) {
    exists b, t, c :: Blank(b) && Blank(c) && StringIs(t, key) && a == b + (t + (c + [':']))
  }

  // ---- What is accepted is in the grammar ---------------------------------------------------

  lemma BlanksSkipped(s: string) returns (b: string)
    requires Terminated(s)
    ensures Blank(b) && s == b + SkipWhitespace(s)
    decreases s
  {
    if |s| == 1 || s[0] > ' ' {
      b := "";
    } else {
      var c := BlanksSkipped(s[1..]);
      b := [s[0]] + c;
    }
  }

  lemma StringAccepted(s: string) returns (t: string)
    requires Terminated(s) && ParseString(s).Success?
    ensures StringIs(t, ParseString(s).value) && s == t + ParseString(s).rest
  {
    var n := FindClose(s[1..]).value;
    t := s[..n + 2];
    FindCloseShort(s[1..], n);
    UnescapeShort(s[1..], n);
    hide Unescape, FindClose, UpToNul;
    assert t[1..] == s[1..][..n + 1];
  }

  /** The first pass looks no further than the closing quote. */
  lemma {:induction false} FindCloseShort(s: string, n: nat)
    requires FindClose(s) == Some(n)
    ensures FindClose(s[..n + 1]) == Some(n)
    decreases |s|
  {
    var t := s[..n + 1];
    if n > 0 {
      var k := if s[0] == BACKSLASH then 2 else 1;
      FindCloseShort(s[k..], n - k);
      assert t[k..] == s[k..][..n - k + 1];
      assert t[0] == s[0];
    }
  }

  lemma UnescapeShort(s: string, n: nat)
    requires n < |s|
    ensures Unescape(s[..n + 1], n) == Unescape(s, n)
  {
    assert s[..n + 1][..n + 1] == s[..n + 1];
    Truncated.UnescapeWithin(s, s[..n + 1], n);
  }

  lemma WordAccepted(s: string, word: string)
    requires Terminated(s) && StartsWith(s, word) && NUL !in word && word != []
    ensures s == word + AfterWord(s, word)
  {}

  lemma NumberAccepted(s: string) returns (t: string)
    requires Terminated(s) && ParseNumber(s).Success? && (s[0] == '-' || IsDigit(s[0]))
    ensures ParseNumber(s).value.Number? && NumberIs(t, ParseNumber(s).value.num) && s == t + ParseNumber(s).rest
  {
    var n := OnlyNumerals(s);
    SpellsSomething(n);
    t := Spell(n);
    hide Spell, WellFormed, Denotes, ParseNumber;
    assert t[0] == s[0];
  }

  /** More blanks in front change nothing. */
  lemma ItemsAfterBlank(a: string, u: string, items: seq<Value>)
    requires Blank(a) && items != [] && ItemsAre(u, items)
    ensures ItemsAre(a + u, items)
  {
    var b, t, c, w :| ItemIs(u, items, b, t, c, w);
    Associative(a, b, t + (c + w));
    hide ValueIs;
    assert Blank(a + b);
    assert ItemIs(a + u, items, a + b, t, c, w);
  }

  lemma KeyAfterBlank(a: string, u: string, key: string)
    requires Blank(a) && KeyIs(u, key)
    ensures KeyIs(a + u, key)
  {
    var b, t, c :| Blank(b) && Blank(c) && StringIs(t, key) && u == b + (t + (c + [':']));
    Associative(a, b, t + (c + [':']));
    hide StringIs;
    assert Blank(a + b);
  }

  lemma MembersAfterBlank(a: string, u: string, members: Members)
    requires Blank(a) && members != [] && MembersAre(u, members)
    ensures MembersAre(a + u, members)
  {
    var k, b, t, c, w :| MemberIs(u, members, k, b, t, c, w);
    KeyAfterBlank(a, k, members[0].key);
    Associative(a, k, b + (t + (c + w)));
    hide ValueIs, KeyIs;
    assert MemberIs(a + u, members, a + k, b, t, c, w);
  }

  lemma {:induction false} ValueAccepted(s: string, depth: nat) returns (t: string)
    requires Terminated(s) && ParseValue(s, depth).Success?
    ensures ValueIs(t, ParseValue(s, depth).value) && s == t + ParseValue(s, depth).rest
    decreases |s|, 1
  {
    ValueByFirstByte(s, depth);
    hide ParseValue, StringIs, NumberIs;
    if s[0] == '[' || s[0] == '{' {
      if depth >= NESTING_LIMIT { TooDeep(s, depth); }
      if s[0] == '[' { t := ArrayAccepted(s, depth); } else { t := ObjectAccepted(s, depth); }
    } else if s[0] == '-' || IsDigit(s[0]) {
      t := NumberAccepted(s);
    } else if s[0] == QUOTE {
      t := StringAccepted(s);
    } else {
      t := ConstantAccepted(s);
    }
  }

  lemma ConstantAccepted(s: string) returns (t: string)
    requires Terminated(s) && ParseConstant(s).Success?
    ensures ValueIs(t, ParseConstant(s).value) && s == t + ParseConstant(s).rest
  {
    hide StartsWith, AfterWord;
    if StartsWith(s, "null") { WordAccepted(s, "null"); t := "null"; }
    else if StartsWith(s, "false") { WordAccepted(s, "false"); t := "false"; }
    else { WordAccepted(s, "true"); t := "true"; }
  }

  lemma {:induction false} ArrayAccepted(s: string, depth: nat) returns (t: string)
    requires Terminated(s) && s[0] == '[' && depth < NESTING_LIMIT && ParseArray(s, depth).Success?
    ensures ValueIs(t, ParseArray(s, depth).value) && s == t + ParseArray(s, depth).rest
    decreases |s|, 0
  {
    ArrayStep(s, depth);
    var inner := SkipWhitespace(s[1..]);
    var r := ItemsThroughEnd(inner, depth + 1);
    hide ParseArray, ParseItems, SkipWhitespace, ItemsAre, Blank;
    var b := BlanksSkipped(s[1..]);
    if inner[0] == ']' {
      t := ['['] + b + [']'];
      Assemble(s, '[', b, inner, ']');
      EmptyTexts(b);
    } else {
      ThroughEndIs(inner, depth + 1);
      var u := ItemsAccepted(inner, depth + 1);
      ItemsAfterBlank(b, u, r.value);
      t := ['['] + (b + u);
      AssembleMore(s, '[', b, inner, u, r.rest);
      ArrayText(b + u, r.value);
    }
  }

  lemma EmptyTexts(b: string)
    requires Blank(b)
    ensures ValueIs(['['] + b + [']'], Array([])) && ValueIs(['{'] + b + ['}'], Object([]))
  {}

  lemma ArrayText(u: string, items: seq<Value>)
    requires items != [] && ItemsAre(u, items)
    ensures ValueIs(['['] + u, Array(items))
  {
    hide ItemsAre;
  }

  lemma ObjectText(u: string, members: Members)
    requires members != [] && MembersAre(u, members)
    ensures ValueIs(['{'] + u, Object(members))
  {
    hide MembersAre;
  }

  lemma ThroughEndIs(s: string, depth: nat)
    requires Terminated(s)
    ensures s[0] != ']' ==> ItemsThroughEnd(s, depth) == ParseItems(s, depth)
    ensures s[0] != '}' ==> MembersThroughEnd(s, depth) == ParseMembers(s, depth)
  {
    hide ParseItems, ParseMembers;
  }

  lemma Assemble(s: string, open: char, b: string, inner: string, close: char)
    requires |s| > 1 && s[0] == open && s[1..] == b + inner && inner != "" && inner[0] == close
    ensures s == [open] + b + [close] + inner[1..]
  {
    assert inner == [close] + inner[1..];
    assert s == [open] + s[1..];
  }

  lemma AssembleMore(s: string, open: char, b: string, inner: string, u: string, rest: string)
    requires |s| > 1 && s[0] == open && s[1..] == b + inner && inner == u + rest
    ensures s == [open] + (b + u) + rest
  {
    assert s == [open] + s[1..];
  }

  lemma OneItem(t: string, b: string, c: string, item: Value)
    requires Blank(b) && Blank(c) && ValueIs(t, item)
    ensures ItemsAre(b + (t + (c + [']'])), [item])
  {
    hide ValueIs, Blank;
    assert ItemIs(b + (t + (c + [']'])), [item], b, t, c, [']']);
  }

  lemma MoreItems(t: string, b: string, c: string, item: Value, v: string, more: seq<Value>)
    requires Blank(b) && Blank(c) && ValueIs(t, item) && more != [] && ItemsAre(v, more)
    ensures ItemsAre(b + (t + (c + ([','] + v))), [item] + more)
  {
    hide ValueIs, Blank, ItemsAre;
    var w := [','] + v;
    assert w[0] == ',' && w[1..] == v && ([item] + more)[1..] == more && ([item] + more)[0] == item;
    assert ItemIs(b + (t + (c + w)), [item] + more, b, t, c, w);
    SomeItem(b + (t + (c + w)), [item] + more, b, t, c, w);
  }

  lemma SomeItem(u: string, items: seq<Value>, b: string, t: string, c: string, w: string)
    requires items != [] && ItemIs(u, items, b, t, c, w)
    ensures ItemsAre(u, items)
  {
    hide ItemIs;
  }

  lemma {:induction false} ItemsAccepted(s: string, depth: nat) returns (u: string)
    requires Terminated(s) && ParseItems(s, depth).Success?
    ensures var r := ParseItems(s, depth); r.value != [] && ItemsAre(u, r.value) && s == u + r.rest
    decreases |s|, 2
  {
    ItemsStep(s, depth);
    var front := SkipWhitespace(s);
    var r := ParseValue(front, depth);
    hide ParseItems, ParseValue, SkipWhitespace, ItemsAre, ValueIs, Blank;
    var b := BlanksSkipped(s);
    var t := ValueAccepted(front, depth);
    var next := SkipWhitespace(r.rest);
    var c := BlanksSkipped(r.rest);
    if next[0] == ']' {
      u := b + (t + (c + [']']));
      OneItem(t, b, c, r.value);
      HeadAndRest(next, ']');
      Gather(s, b, front, t, r.rest, c, next, [']'], next[1..]);
    } else {
      var v := ItemsAccepted(next[1..], depth);
      var more := ParseItems(next[1..], depth);
      u := b + (t + (c + ([','] + v)));
      MoreItems(t, b, c, r.value, v, more.value);
      HeadAndRest(next, ',');
      Associative([','], v, more.rest);
      Gather(s, b, front, t, r.rest, c, next, [','] + v, more.rest);
    }
  }

  lemma HeadAndRest(s: string, head: char)
    requires s != "" && s[0] == head
    ensures s == [head] + s[1..]
  {}

  lemma Gather(s: string, b: string, front: string, t: string, behind: string, c: string, next: string, w: string, rest: string)
    requires s == b + front && front == t + behind && behind == c + next && next == w + rest
    ensures s == b + (t + (c + w)) + rest
  {
    Associative(c, w, rest);
    Associative(t, c + w, rest);
    Associative(b, t + (c + w), rest);
  }

  lemma {:induction false} ObjectAccepted(s: string, depth: nat) returns (t: string)
    requires Terminated(s) && s[0] == '{' && depth < NESTING_LIMIT && ParseObject(s, depth).Success?
    ensures ValueIs(t, ParseObject(s, depth).value) && s == t + ParseObject(s, depth).rest
    decreases |s|, 0
  {
    ObjectStep(s, depth);
    var inner := SkipWhitespace(s[1..]);
    var r := MembersThroughEnd(inner, depth + 1);
    hide ParseObject, ParseMembers, SkipWhitespace, MembersAre, Blank;
    var b := BlanksSkipped(s[1..]);
    if inner[0] == '}' {
      t := ['{'] + b + ['}'];
      Assemble(s, '{', b, inner, '}');
      EmptyTexts(b);
    } else {
      ThroughEndIs(inner, depth + 1);
      var u := MembersAccepted(inner, depth + 1);
      MembersAfterBlank(b, u, r.value);
      t := ['{'] + (b + u);
      AssembleMore(s, '{', b, inner, u, r.rest);
      ObjectText(b + u, r.value);
    }
  }

  lemma KeyAccepted(s: string) returns (a: string, b: string)
    requires Terminated(s) && ParseKey(s).Success?
    ensures KeyIs(a, ParseKey(s).value) && Blank(b) && s == a + (b + ParseKey(s).rest)
  {
    var front := SkipWhitespace(s);
    var r := ParseString(front);
    var colon := SkipWhitespace(r.rest);
    hide ParseString, SkipWhitespace, Blank, StringIs;
    var x := BlanksSkipped(s);
    var t := StringAccepted(front);
    var c := BlanksSkipped(r.rest);
    ColonPassed(s);
    b := BlanksSkipped(colon[1..]);
    a := x + (t + (c + [':']));
    HeadAndRest(colon, ':');
    Gather(s, x, front, t, r.rest, c, colon, [':'], colon[1..]);
  }

  lemma ColonPassed(s: string)
    requires Terminated(s) && ParseKey(s).Success?
    ensures var r := ParseString(SkipWhitespace(s));
            && r.Success? && ParseKey(s).value == r.value
            && var colon := SkipWhitespace(r.rest);
               colon[0] == ':' && Terminated(colon[1..]) && ParseKey(s).rest == SkipWhitespace(colon[1..])
  {
    hide ParseString, SkipWhitespace;
  }

  lemma OneMember(a: string, b: string, t: string, c: string, e: Entry<Value>)
    requires KeyIs(a, e.key) && Blank(b) && Blank(c) && ValueIs(t, e.item)
    ensures MembersAre(a + (b + (t + (c + ['}']))), [e])
  {
    hide ValueIs, Blank, KeyIs;
    assert MemberIs(a + (b + (t + (c + ['}']))), [e], a, b, t, c, ['}']);
  }

  lemma MoreMembers(a: string, b: string, t: string, c: string, e: Entry<Value>, v: string, more: Members)
    requires KeyIs(a, e.key) && Blank(b) && Blank(c) && ValueIs(t, e.item) && more != [] && MembersAre(v, more)
    ensures MembersAre(a + (b + (t + (c + ([','] + v)))), [e] + more)
  {
    hide ValueIs, Blank, KeyIs, MembersAre;
    var w := [','] + v;
    assert w[0] == ',' && w[1..] == v && ([e] + more)[1..] == more && ([e] + more)[0] == e;
    assert MemberIs(a + (b + (t + (c + w))), [e] + more, a, b, t, c, w);
    SomeMember(a + (b + (t + (c + w))), [e] + more, a, b, t, c, w);
  }

  lemma SomeMember(u: string, members: Members, a: string, b: string, t: string, c: string, w: string)
    requires members != [] && MemberIs(u, members, a, b, t, c, w)
    ensures MembersAre(u, members)
  {
    hide MemberIs;
  }

  lemma MembersUnfold(s: string, depth: nat)
    requires Terminated(s) && ParseMembers(s, depth).Success?
    ensures var k := ParseKey(s);
            k.Success? && ParseValue(k.rest, depth).Success?
    ensures var k := ParseKey(s);
            var r := ParseValue(k.rest, depth);
            var next := SkipWhitespace(r.rest);
            var e := Entry(k.value, r.value);
            if next[0] == '}' then ParseMembers(s, depth) == Success([e], next[1..])
            else
              && next[0] == ',' && Terminated(next[1..]) && ParseMembers(next[1..], depth).Success?
              && ParseMembers(s, depth) == Success([e] + ParseMembers(next[1..], depth).value, ParseMembers(next[1..], depth).rest)
  {
    hide ParseMembers, ParseKey, ParseValue, SkipWhitespace, MembersAfter, ItemsAfter, ParseItems, ParseArray, ParseObject;
    MembersStep(s, depth);
    var k := ParseKey(s);
    if k.Success? && ParseValue(k.rest, depth).Success? {
      var next := SkipWhitespace(ParseValue(k.rest, depth).rest);
      assert next[0] == ',' ==> Terminated(next[1..]) by { Commas(next); }
    }
  }

  lemma Commas(next: string)
    requires Terminated(next)
    ensures next[0] == ',' ==> Terminated(next[1..])
  {}

  lemma {:induction false} MembersAccepted(s: string, depth: nat) returns (u: string)
    requires Terminated(s) && ParseMembers(s, depth).Success?
    ensures var r := ParseMembers(s, depth); r.value != [] && MembersAre(u, r.value) && s == u + r.rest
    decreases |s|, 2
  {
    MembersUnfold(s, depth);
    var k := ParseKey(s);
    var r := ParseValue(k.rest, depth);
    hide ParseMembers, ParseKey, ParseValue, SkipWhitespace, MembersAre, ValueIs, KeyIs, Blank, Extend;
    var a, b := KeyAccepted(s);
    var t := ValueAccepted(k.rest, depth);
    var next := SkipWhitespace(r.rest);
    var c := BlanksSkipped(r.rest);
    var e := Entry(k.value, r.value);
    if next[0] == '}' {
      u := a + (b + (t + (c + ['}'])));
      OneMember(a, b, t, c, e);
      HeadAndRest(next, '}');
      GatherMember(s, a, b, k.rest, t, r.rest, c, next, ['}'], next[1..]);
    } else {
      var v := MembersAccepted(next[1..], depth);
      var more := ParseMembers(next[1..], depth);
      u := a + (b + (t + (c + ([','] + v))));
      MoreMembers(a, b, t, c, e, v, more.value);
      HeadAndRest(next, ',');
      Associative([','], v, more.rest);
      GatherMember(s, a, b, k.rest, t, r.rest, c, next, [','] + v, more.rest);
    }
  }

  lemma GatherMember(s: string, a: string, b: string, value: string, t: string, behind: string, c: string, next: string,
                     w: string, rest: string)
    requires s == a + (b + value) && value == t + behind && behind == c + next && next == w + rest
    ensures s == a + (b + (t + (c + w))) + rest
  {
    Gather(b + value, b, value, t, behind, c, next, w, rest);
    Associative(a, b + (t + (c + w)), rest);
  }

  // ---- What is in the grammar is accepted ---------------------------------------------------

  /** The kind of a value shows in the first byte of its text. */
  lemma Starts(t: string, v: Value)
    requires ValueIs(t, v)
    ensures t != "" && t[0] > ' '
    ensures match v
            case Array(_) => t[0] == '['
            case Object(_) => t[0] == '{'
            case String(_) => t[0] == QUOTE
            case Number(_) => t[0] == '-' || IsDigit(t[0])
            case _ => t[0] == 'n' || t[0] == 'f' || t[0] == 't'
  {
    hide ItemsAre, MembersAre;
    match v
    case Number(x) =>
      var n :| WellFormed(n) && t == Spell(n) && |t| <= 63 && (t[0] == '-' || IsDigit(t[0])) && Denotes(n, x);
    case Array(items) => hide Blank; if items != [] { var u := OpenArray(t, v); }
    case Object(members) => hide Blank; if members != [] { var u := OpenObject(t, v); }
    case _ =>
  }

  lemma {:induction false} ValueRead(t: string, v: Value, rest: string, depth: nat)
    requires ValueIs(t, v) && Delimits(rest) && depth + Nesting(v) <= NESTING_LIMIT
    ensures Terminated(t + rest) && ParseValue(t + rest, depth) == Success(v, rest)
    decreases v, 1
  {
    var s := t + rest;
    Starts(t, v);
    TerminatedTail(t, rest);
    assert s[0] == t[0];
    ValueByFirstByte(s, depth);
    hide ParseValue;
    match v
    case Array(_) => ArrayRead(t, v, rest, depth);
    case Object(_) => ObjectRead(t, v, rest, depth);
    case String(text) => StringRead(t, text, rest);
    case Number(x) => NumberRead(t, x, rest);
    case _ => ConstantRead(t, v, rest);
  }

  lemma ConstantRead(t: string, v: Value, rest: string)
    requires (v.Null? && t == "null") || (v.False? && t == "false") || (v.True? && t == "true")
    requires Terminated(rest)
    ensures Terminated(t + rest) && ParseConstant(t + rest) == Success(v, rest)
  {
    WordBack(t, rest);
    if t != "null" { OtherWord(t + rest, "null"); }
    if t != "false" { OtherWord(t + rest, "false"); }
    if t != "true" { OtherWord(t + rest, "true"); }
    hide StartsWith, AfterWord;
  }

  lemma NumberRead(t: string, x: real, rest: string)
    requires NumberIs(t, x) && Delimits(rest)
    ensures Terminated(t + rest) && ParseNumber(t + rest) == Success(Number(x), rest)
  {
    var n :| WellFormed(n) && t == Spell(n) && |t| <= 63 && (t[0] == '-' || IsDigit(t[0])) && Denotes(n, x);
    EndsNumeral(n, rest);
    hide Spell, WellFormed, Denotes, ParseNumber, Continues;
    NumeralParses(n, rest);
    DenotesOne(n, x, ParseNumber(t + rest).value.num);
  }

  lemma EndsNumeral(n: Numeral, rest: string)
    requires Delimits(rest)
    ensures !Continues(n, rest)
  {}

  lemma StringRead(t: string, s: string, rest: string)
    requires StringIs(t, s) && Terminated(rest)
    ensures Terminated(t + rest) && ParseString(t + rest) == Success(s, rest)
  {
    var body, n := t[1..], |t| - 2;
    assert (t + rest)[1..] == body + rest;
    FindCloseLonger(body, rest, n);
    assert (body + rest)[..n + 1] == body[..n + 1];
    Truncated.UnescapeWithin(body + rest, body, n);
    hide FindClose, Unescape, UpToNul;
    assert (t + rest)[n + 2..] == rest;
    assert (t + rest)[0] == t[0];
  }

  lemma {:induction false} FindCloseLonger(s: string, rest: string, n: nat)
    requires FindClose(s) == Some(n)
    ensures FindClose(s + rest) == Some(n)
    decreases |s|
  {
    if n > 0 {
      var k := if s[0] == BACKSLASH then 2 else 1;
      FindCloseLonger(s[k..], rest, n - k);
      assert (s + rest)[k..] == s[k..] + rest && (s + rest)[0] == s[0];
    } else {
      assert (s + rest)[0] == s[0];
    }
  }

  lemma {:induction false} ArrayRead(t: string, v: Value, rest: string, depth: nat)
    requires v.Array? && ValueIs(t, v) && Delimits(rest) && depth + Nesting(v) <= NESTING_LIMIT
    ensures Terminated(t + rest) && (t + rest)[0] == '[' && ParseArray(t + rest, depth) == Success(v, rest)
    decreases v, 0
  {
    hide ValueIs, ItemsAre, ParseArray, ParseItems, SkipWhitespace, Nesting, ItemsNesting, Blank;
    NestsDeeper(v);
    if v.items == [] {
      EmptyArrayRead(t, v, rest, depth);
    } else {
      var u := OpenArray(t, v);
      ItemsRead(u, v.items, rest, depth + 1);
      FrontRead(u, v.items, rest, depth + 1);
      ArrayConcludes(t, u, v.items, rest, depth);
    }
  }

  lemma NestsDeeper(v: Value)
    ensures v.Array? ==> Nesting(v) == 1 + ItemsNesting(v.items)
    ensures v.Object? ==> Nesting(v) == 1 + MembersNesting(v.members)
  {}

  lemma OpenArray(t: string, v: Value) returns (u: string)
    requires v.Array? && v.items != [] && ValueIs(t, v)
    ensures t == ['['] + u && ItemsAre(u, v.items)
  {
    hide ItemsAre;
    u :| t == ['['] + u && ItemsAre(u, v.items);
  }

  lemma OpenObject(t: string, v: Value) returns (u: string)
    requires v.Object? && v.members != [] && ValueIs(t, v)
    ensures t == ['{'] + u && MembersAre(u, v.members)
  {
    hide MembersAre;
    u :| t == ['{'] + u && MembersAre(u, v.members);
  }

  lemma EmptyArrayRead(t: string, v: Value, rest: string, depth: nat)
    requires v == Array([]) && ValueIs(t, v) && Terminated(rest) && depth < NESTING_LIMIT
    ensures Terminated(t + rest) && (t + rest)[0] == '[' && ParseArray(t + rest, depth) == Success(v, rest)
  {
    var b :| Blank(b) && t == ['['] + b + [']'];
    hide SkipWhitespace, ParseArray, ParseItems, Blank, ItemsAre, ValueIs;
    TerminatedTail(t, rest);
    EmptyRead(t, '[', b, ']', rest);
    ArrayStep(t + rest, depth);
  }

  lemma EmptyObjectRead(t: string, v: Value, rest: string, depth: nat)
    requires v == Object([]) && ValueIs(t, v) && Terminated(rest) && depth < NESTING_LIMIT
    ensures Terminated(t + rest) && (t + rest)[0] == '{' && ParseObject(t + rest, depth) == Success(v, rest)
  {
    var b :| Blank(b) && t == ['{'] + b + ['}'];
    hide SkipWhitespace, ParseObject, ParseMembers, Blank, MembersAre, ValueIs;
    TerminatedTail(t, rest);
    EmptyRead(t, '{', b, '}', rest);
    ObjectStep(t + rest, depth);
  }

  /** Skipping blanks before the first element changes nothing, and leaves no bracket in front. */
  lemma FrontRead(u: string, items: seq<Value>, rest: string, depth: nat)
    requires items != [] && ItemsAre(u, items) && Terminated(rest) && Terminated(u + rest)
    ensures SkipWhitespace(u + rest)[0] != ']'
    ensures ParseItems(SkipWhitespace(u + rest), depth) == ParseItems(u + rest, depth)
  {
    var b, t, c, w :| ItemIs(u, items, b, t, c, w);
    Starts(t, items[0]);
    var front := t + (c + (w + rest));
    hide ItemsAre, ValueIs, Blank;
    Unfolded(u, b, t, c, w, rest);
    assert front[0] == t[0];
    TailTerminated(b, front);
    SkipsTo(b, front);
    hide SkipWhitespace;
    FrontAgain(u + rest, front, depth);
  }

  lemma TailTerminated(b: string, front: string)
    requires front != "" && Terminated(b + front)
    ensures Terminated(front)
  {}

  lemma FrontAgain(s: string, front: string, depth: nat)
    requires Terminated(s) && Terminated(front) && front[0] > ' ' && SkipWhitespace(s) == front
    ensures ParseItems(front, depth) == ParseItems(s, depth)
    ensures ParseMembers(front, depth) == ParseMembers(s, depth)
  {
    SkipsTo("", front);
    assert "" + front == front;
    SameAfterBlank(s, front, depth);
  }

  /** What follows an element delimits it. */
  lemma Follows(c: string, w: string, rest: string)
    requires Blank(c) && w != "" && (w[0] == ',' || w[0] == ']' || w[0] == '}') && Terminated(rest)
    ensures Delimits(c + (w + rest)) && SkipWhitespace(c + (w + rest)) == w + rest
    ensures Terminated(w + rest) && (w + rest)[0] == w[0] && (w + rest)[1..] == w[1..] + rest
  {
    Delimited(w, rest);
    BlankFirst(c, w + rest);
    hide SkipWhitespace;
  }

  lemma Delimited(w: string, rest: string)
    requires w != "" && Terminated(rest)
    ensures Terminated(w + rest) && (w + rest)[0] == w[0] && (w + rest)[1..] == w[1..] + rest
  {
    TerminatedTail(w, rest);
  }

  lemma BlankFirst(c: string, s: string)
    requires Blank(c) && Terminated(s) && (s[0] == ',' || s[0] == ']' || s[0] == '}')
    ensures Delimits(c + s) && SkipWhitespace(c + s) == s
  {
    TerminatedTail(c, s);
    SkipsTo(c, s);
    hide SkipWhitespace;
    assert (c + s)[0] == if c == "" then s[0] else c[0];
  }

  /** The element loop, once the first element has been read. */
  lemma LoopEnds(s: string, depth: nat, item: Value, behind: string, next: string)
    requires Terminated(s) && ParseValue(SkipWhitespace(s), depth) == Success(item, behind) && Terminated(behind)
    requires SkipWhitespace(behind) == next && next[0] == ']'
    ensures ParseItems(s, depth) == Success([item], next[1..])
  {
    hide ParseItems, ParseValue, SkipWhitespace;
    ItemsStep(s, depth);
  }

  lemma LoopGoesOn(s: string, depth: nat, item: Value, behind: string, next: string, more: seq<Value>, rest: string)
    requires Terminated(s) && ParseValue(SkipWhitespace(s), depth) == Success(item, behind) && Terminated(behind)
    requires SkipWhitespace(behind) == next && next[0] == ',' && Terminated(next[1..])
    requires ParseItems(next[1..], depth) == Success(more, rest)
    ensures ParseItems(s, depth) == Success([item] + more, rest)
  {
    hide ParseItems, ParseValue, SkipWhitespace;
    ItemsStep(s, depth);
  }

  /** The first element and what is behind it. */
  lemma {:induction false} ItemRead(u: string, items: seq<Value>, b: string, t: string, c: string, w: string, rest: string, depth: nat)
    requires items != [] && ItemIs(u, items, b, t, c, w) && Terminated(rest) && depth + ItemsNesting(items) <= NESTING_LIMIT
    ensures Terminated(u + rest) && Terminated(c + (w + rest))
    ensures ParseValue(SkipWhitespace(u + rest), depth) == Success(items[0], c + (w + rest))
    decreases items, 1
  {
    var behind := c + (w + rest);
    assert w != "" && (w[0] == ',' || w[0] == ']');
    NestingSplits(items);
    Starts(t, items[0]);
    Follows(c, w, rest);
    ValueRead(t, items[0], behind, depth);
    Unfolded(u, b, t, c, w, rest);
    hide ItemsAre, ValueIs, ParseValue, Blank, ItemsNesting;
    assert (t + behind)[0] == t[0];
    SkipsTo(b, t + behind);
  }

  lemma {:induction false} ItemsRead(u: string, items: seq<Value>, rest: string, depth: nat)
    requires items != [] && ItemsAre(u, items) && Terminated(rest) && depth + ItemsNesting(items) <= NESTING_LIMIT
    ensures Terminated(u + rest) && ParseItems(u + rest, depth) == Success(items, rest)
    decreases items, 2
  {
    var b, t, c, w :| ItemIs(u, items, b, t, c, w);
    ItemRead(u, items, b, t, c, w, rest, depth);
    if |items| == 1 {
      LastItemRead(u, items, b, t, c, w, rest, depth);
    } else {
      NestingSplits(items);
      ItemsRead(w[1..], items[1..], rest, depth);
      OtherItemRead(u, items, b, t, c, w, rest, depth);
    }
  }

  lemma LastItemRead(u: string, items: seq<Value>, b: string, t: string, c: string, w: string, rest: string, depth: nat)
    requires |items| == 1 && ItemIs(u, items, b, t, c, w) && Terminated(rest) && Terminated(u + rest)
    requires Terminated(c + (w + rest)) && ParseValue(SkipWhitespace(u + rest), depth) == Success(items[0], c + (w + rest))
    ensures ParseItems(u + rest, depth) == Success(items, rest)
  {
    hide ValueIs, ParseItems, ParseValue, Blank, SkipWhitespace, ItemsAre;
    Follows(c, w, rest);
    LoopEnds(u + rest, depth, items[0], c + (w + rest), w + rest);
    Behind(w, rest);
    assert items == [items[0]];
  }

  lemma OtherItemRead(u: string, items: seq<Value>, b: string, t: string, c: string, w: string, rest: string, depth: nat)
    requires |items| > 1 && ItemIs(u, items, b, t, c, w) && Terminated(rest) && Terminated(u + rest)
    requires Terminated(c + (w + rest)) && ParseValue(SkipWhitespace(u + rest), depth) == Success(items[0], c + (w + rest))
    requires Terminated(w[1..] + rest) && ParseItems(w[1..] + rest, depth) == Success(items[1..], rest)
    ensures ParseItems(u + rest, depth) == Success(items, rest)
  {
    hide ValueIs, ParseItems, ParseValue, Blank, SkipWhitespace, ItemsAre;
    Follows(c, w, rest);
    LoopGoesOn(u + rest, depth, items[0], c + (w + rest), w + rest, items[1..], rest);
    assert items == [items[0]] + items[1..];
  }

  lemma NestingSplits(items: seq<Value>)
    requires items != []
    ensures Nesting(items[0]) <= ItemsNesting(items) && ItemsNesting(items[1..]) <= ItemsNesting(items)
  {}

  lemma MembersNestingSplits(members: Members)
    requires members != []
    ensures Nesting(members[0].item) <= MembersNesting(members) && MembersNesting(members[1..]) <= MembersNesting(members)
  {}

  lemma Unfolded(u: string, b: string, t: string, c: string, w: string, rest: string)
    requires u == b + (t + (c + w))
    ensures u + rest == b + (t + (c + (w + rest)))
  {
    Gather(u + rest, b, t + (c + (w + rest)), t, c + (w + rest), c, w + rest, w, rest);
  }

  lemma KeyRead(a: string, key: string, b: string, value: string)
    requires KeyIs(a, key) && Blank(b) && Terminated(value) && value[0] > ' '
    ensures Terminated(a + (b + value)) && ParseKey(a + (b + value)) == Success(key, value)
    ensures a != "" && SkipWhitespace(a + (b + value))[0] == QUOTE
  {
    var x, t, c :| Blank(x) && Blank(c) && StringIs(t, key) && a == x + (t + (c + [':']));
    var colon := [':'] + (b + value);
    var behind := c + colon;
    TerminatedTail(b, value);
    TerminatedTail([':'], b + value);
    TerminatedTail(c, colon);
    TerminatedTail(t, behind);
    assert a + (b + value) == x + (t + behind) by { Unfolded(a, x, t, c, [':'], b + value); }
    assert (t + behind)[0] == t[0] == QUOTE;
    SkipsTo(x, t + behind);
    StringRead(t, key, behind);
    SkipsTo(c, colon);
    assert colon[1..] == b + value;
    SkipsTo(b, value);
    hide SkipWhitespace, ParseString, StringIs, Blank;
  }

  lemma {:induction false} ObjectRead(t: string, v: Value, rest: string, depth: nat)
    requires v.Object? && ValueIs(t, v) && Delimits(rest) && depth + Nesting(v) <= NESTING_LIMIT
    ensures Terminated(t + rest) && (t + rest)[0] == '{' && ParseObject(t + rest, depth) == Success(v, rest)
    decreases v, 0
  {
    hide ValueIs, MembersAre, ParseObject, ParseMembers, SkipWhitespace, Nesting, MembersNesting, Blank;
    NestsDeeper(v);
    if v.members == [] {
      EmptyObjectRead(t, v, rest, depth);
    } else {
      var u := OpenObject(t, v);
      MembersRead(u, v.members, rest, depth + 1);
      ObjectConcludes(t, u, v.members, rest, depth);
    }
  }

  lemma ObjectConcludes(t: string, u: string, members: Members, rest: string, depth: nat)
    requires t == ['{'] + u && Terminated(u + rest) && depth < NESTING_LIMIT
    requires SkipWhitespace(u + rest)[0] == QUOTE && ParseMembers(u + rest, depth + 1) == Success(members, rest)
    ensures Terminated(t + rest) && (t + rest)[0] == '{' && ParseObject(t + rest, depth) == Success(Object(members), rest)
  {
    hide SkipWhitespace, ParseObject, ParseMembers;
    OpensWith(t, '{', u, rest);
    FrontAgain(u + rest, SkipWhitespace(u + rest), depth + 1);
    ObjectStep(t + rest, depth);
  }

  lemma ArrayConcludes(t: string, u: string, items: seq<Value>, rest: string, depth: nat)
    requires t == ['['] + u && Terminated(u + rest) && depth < NESTING_LIMIT
    requires SkipWhitespace(u + rest)[0] != ']' && ParseItems(u + rest, depth + 1) == Success(items, rest)
    requires ParseItems(SkipWhitespace(u + rest), depth + 1) == ParseItems(u + rest, depth + 1)
    ensures Terminated(t + rest) && (t + rest)[0] == '[' && ParseArray(t + rest, depth) == Success(Array(items), rest)
  {
    hide SkipWhitespace, ParseArray, ParseItems;
    OpensWith(t, '[', u, rest);
    ArrayStep(t + rest, depth);
  }

  lemma EmptyRead(t: string, open: char, b: string, close: char, rest: string)
    requires t == [open] + b + [close] && Blank(b) && close > ' ' && Terminated(rest)
    ensures (t + rest)[0] == open && Terminated((t + rest)[1..])
    ensures SkipWhitespace((t + rest)[1..]) == [close] + rest && ([close] + rest)[0] == close && ([close] + rest)[1..] == rest
  {
    assert (t + rest)[1..] == b + ([close] + rest);
    TerminatedTail([close], rest);
    SkipsTo(b, [close] + rest);
  }

  lemma OpensWith(t: string, open: char, u: string, rest: string)
    requires t == [open] + u
    ensures (t + rest)[0] == open && (t + rest)[1..] == u + rest
    ensures Terminated(u + rest) ==> Terminated(t + rest)
  {
    Associative([open], u, rest);
    if Terminated(u + rest) { TerminatedTail([open], u + rest); }
  }

  lemma MembersEnd(s: string, depth: nat, key: string, value: string, item: Value, behind: string, next: string)
    requires Terminated(s) && ParseKey(s) == Success(key, value) && Terminated(value)
    requires ParseValue(value, depth) == Success(item, behind) && Terminated(behind)
    requires SkipWhitespace(behind) == next && next[0] == '}'
    ensures ParseMembers(s, depth) == Success([Entry(key, item)], next[1..])
  {
    hide ParseMembers, ParseKey, ParseValue, SkipWhitespace;
    MembersStep(s, depth);
  }

  lemma MembersGoOn(s: string, depth: nat, key: string, value: string, item: Value, behind: string, next: string,
                    more: Members, rest: string)
    requires Terminated(s) && ParseKey(s) == Success(key, value) && Terminated(value)
    requires ParseValue(value, depth) == Success(item, behind) && Terminated(behind)
    requires SkipWhitespace(behind) == next && next[0] == ',' && Terminated(next[1..])
    requires ParseMembers(next[1..], depth) == Success(more, rest)
    ensures ParseMembers(s, depth) == Success([Entry(key, item)] + more, rest)
  {
    hide ParseMembers, ParseKey, ParseValue, SkipWhitespace;
    MembersStep(s, depth);
  }

  /** The first member and what is behind it. */
  lemma {:induction false} MemberRead(u: string, members: Members, a: string, b: string, t: string, c: string, w: string,
                                      rest: string, depth: nat)
    requires members != [] && MemberIs(u, members, a, b, t, c, w) && Terminated(rest)
    requires depth + MembersNesting(members) <= NESTING_LIMIT
    ensures var behind := c + (w + rest);
            && Terminated(u + rest) && Terminated(behind) && Terminated(t + behind)
            && ParseKey(u + rest) == Success(members[0].key, t + behind)
            && ParseValue(t + behind, depth) == Success(members[0].item, behind)
    ensures SkipWhitespace(u + rest)[0] == QUOTE
    decreases members, 1
  {
    var behind := c + (w + rest);
    assert w != "" && (w[0] == ',' || w[0] == '}');
    MembersNestingSplits(members);
    Starts(t, members[0].item);
    Follows(c, w, rest);
    ValueRead(t, members[0].item, behind, depth);
    UnfoldedMember(u, a, b, t, c, w, rest);
    hide MembersAre, ValueIs, ParseValue, ParseKey, Blank, MembersNesting, KeyIs, SkipWhitespace;
    assert (t + behind)[0] == t[0];
    KeyRead(a, members[0].key, b, t + behind);
  }

  lemma {:induction false} MembersRead(u: string, members: Members, rest: string, depth: nat)
    requires members != [] && MembersAre(u, members) && Terminated(rest) && depth + MembersNesting(members) <= NESTING_LIMIT
    ensures Terminated(u + rest) && ParseMembers(u + rest, depth) == Success(members, rest)
    ensures SkipWhitespace(u + rest)[0] == QUOTE
    decreases members, 2
  {
    var a, b, t, c, w :| MemberIs(u, members, a, b, t, c, w);
    MemberRead(u, members, a, b, t, c, w, rest, depth);
    if |members| == 1 {
      LastMemberRead(u, members, a, b, t, c, w, rest, depth);
    } else {
      MembersNestingSplits(members);
      MembersRead(w[1..], members[1..], rest, depth);
      OtherMemberRead(u, members, a, b, t, c, w, rest, depth);
    }
  }

  lemma LastMemberRead(u: string, members: Members, a: string, b: string, t: string, c: string, w: string, rest: string, depth: nat)
    requires |members| == 1 && MemberIs(u, members, a, b, t, c, w) && Terminated(rest) && Terminated(u + rest)
    requires var behind := c + (w + rest);
             && Terminated(behind) && Terminated(t + behind) && ParseKey(u + rest) == Success(members[0].key, t + behind)
             && ParseValue(t + behind, depth) == Success(members[0].item, behind)
    ensures ParseMembers(u + rest, depth) == Success(members, rest)
  {
    BehindMember(u, members, a, b, t, c, w);
    hide MemberIs, MembersAre, ValueIs, ParseMembers, ParseValue, ParseKey, Blank, KeyIs, SkipWhitespace, MembersAfter, Nesting;
    Follows(c, w, rest);
    Behind(w, rest);
    EndsWithMember(u + rest, members, t + (c + (w + rest)), c + (w + rest), w + rest, rest, depth);
  }

  lemma EndsWithMember(s: string, members: Members, value: string, behind: string, next: string, rest: string, depth: nat)
    requires |members| == 1 && Terminated(s) && Terminated(value) && Terminated(behind)
    requires ParseKey(s) == Success(members[0].key, value) && ParseValue(value, depth) == Success(members[0].item, behind)
    requires SkipWhitespace(behind) == next && next[0] == '}' && next[1..] == rest
    ensures ParseMembers(s, depth) == Success(members, rest)
  {
    var e := members[0];
    hide ParseMembers, ParseValue, ParseKey, SkipWhitespace;
    MembersEnd(s, depth, e.key, value, e.item, behind, next);
    assert members == [Entry(e.key, e.item)];
  }

  lemma GoesOnWithMember(s: string, members: Members, value: string, behind: string, next: string, rest: string, depth: nat)
    requires |members| > 1 && Terminated(s) && Terminated(value) && Terminated(behind)
    requires ParseKey(s) == Success(members[0].key, value) && ParseValue(value, depth) == Success(members[0].item, behind)
    requires SkipWhitespace(behind) == next && next[0] == ',' && Terminated(next[1..])
    requires ParseMembers(next[1..], depth) == Success(members[1..], rest)
    ensures ParseMembers(s, depth) == Success(members, rest)
  {
    var e, more := members[0], members[1..];
    assert members == [Entry(e.key, e.item)] + more;
    hide ParseMembers, ParseValue, ParseKey, SkipWhitespace;
    MembersGoOn(s, depth, e.key, value, e.item, behind, next, more, rest);
  }

  lemma BehindMember(u: string, members: Members, a: string, b: string, t: string, c: string, w: string)
    requires members != [] && MemberIs(u, members, a, b, t, c, w)
    ensures Blank(c) && w != "" && if |members| == 1 then w == ['}'] else w[0] == ','
  {
    hide MembersAre, ValueIs, Blank, KeyIs;
  }

  lemma OtherMemberRead(u: string, members: Members, a: string, b: string, t: string, c: string, w: string, rest: string, depth: nat)
    requires |members| > 1 && MemberIs(u, members, a, b, t, c, w) && Terminated(rest) && Terminated(u + rest)
    requires var behind := c + (w + rest);
             && Terminated(behind) && Terminated(t + behind) && ParseKey(u + rest) == Success(members[0].key, t + behind)
             && ParseValue(t + behind, depth) == Success(members[0].item, behind)
    requires Terminated(w[1..] + rest) && ParseMembers(w[1..] + rest, depth) == Success(members[1..], rest)
    ensures ParseMembers(u + rest, depth) == Success(members, rest)
  {
    BehindMember(u, members, a, b, t, c, w);
    hide MemberIs, MembersAre, ValueIs, ParseMembers, ParseValue, ParseKey, Blank, KeyIs, SkipWhitespace, MembersAfter, Nesting;
    Follows(c, w, rest);
    GoesOnWithMember(u + rest, members, t + (c + (w + rest)), c + (w + rest), w + rest, rest, depth);
  }

  lemma UnfoldedMember(u: string, a: string, b: string, t: string, c: string, w: string, rest: string)
    requires u == a + (b + (t + (c + w)))
    ensures u + rest == a + (b + (t + (c + (w + rest))))
  {
    Unfolded(b + (t + (c + w)), b, t, c, w, rest);
    Associative(a, b + (t + (c + w)), rest);
  }

  // ---- The whole text -----------------------------------------------------------------------

  /** A document: a text of a value, with blanks around it. */
  ghost predicate Document(text: string, v: Value) {
    exists b, t, c :: Blank(b) && Blank(c) && ValueIs(t, v) && text == b + (t + c)
  }

  /** Null-terminated parsing accepts exactly the documents that nest no deeper than the limit, and as what they are. */
  lemma AcceptsExactly(text: string, v: Value)
    requires IsCString(text) && !StartsWith(text, BYTE_ORDER_MARK)
    ensures ParseText(text, true) == Some(v) <==> Document(text, v) && Nesting(v) <= NESTING_LIMIT
  {
    if ParseText(text, true) == Some(v) { DocumentAccepted(text, v); }
    if Document(text, v) && Nesting(v) <= NESTING_LIMIT { DocumentRead(text, v); }
  }

  lemma NoMark(text: string)
    requires !StartsWith(text, BYTE_ORDER_MARK)
    ensures SkipByteOrderMark(text + [NUL]) == text + [NUL]
  {
    var s := text + [NUL];
    if |text| >= 3 { assert s[..3] == text[..3]; } else if |s| > 4 {}
  }

  lemma DocumentAccepted(text: string, v: Value)
    requires IsCString(text) && !StartsWith(text, BYTE_ORDER_MARK) && ParseText(text, true) == Some(v)
    ensures Document(text, v) && Nesting(v) <= NESTING_LIMIT
  {
    NoMark(text);
    ParsedTree(text, true);
    var s := text + [NUL];
    var front := SkipWhitespace(s);
    var r := ParseValue(front, 0);
    hide ParseValue, SkipWhitespace, ValueIs, Blank, SkipByteOrderMark, Nesting, Document, IsCString, Storable;
    var b := BlanksSkipped(s);
    var t := ValueAccepted(front, 0);
    var c := BlanksSkipped(r.rest);
    var end := SkipWhitespace(r.rest);
    Associative(b, t, c + end);
    OnlyNulLeft(text, b + t, c, end);
    DocumentIs(text, b, t, c, v);
  }

  lemma DocumentIs(text: string, b: string, t: string, c: string, v: Value)
    requires Blank(b) && Blank(c) && ValueIs(t, v) && text == (b + t) + c
    ensures Document(text, v)
  {
    hide Blank, ValueIs;
    Associative(b, t, c);
  }

  lemma OnlyNulLeft(text: string, front: string, c: string, end: string)
    requires IsCString(text) && Terminated(end) && end[0] == NUL && text + [NUL] == front + (c + end)
    ensures end == [NUL] && text == front + c
  {
    var s := text + [NUL];
    var i := |front| + |c|;
    assert s[i] == end[0] == NUL;
    assert i == |text|;
    assert s[..i] == text && s[..i] == front + c;
  }

  lemma DocumentRead(text: string, v: Value)
    requires IsCString(text) && !StartsWith(text, BYTE_ORDER_MARK) && Document(text, v) && Nesting(v) <= NESTING_LIMIT
    ensures ParseText(text, true) == Some(v)
  {
    var b, t, c :| Blank(b) && Blank(c) && ValueIs(t, v) && text == b + (t + c);
    var rest := c + [NUL];
    NoMark(text);
    Starts(t, v);
    AroundValue(text, b, t, c);
    ValueRead(t, v, rest, 0);
    hide ParseValue, ValueIs, Blank, SkipByteOrderMark, Nesting, SkipWhitespace;
  }

  lemma AroundValue(text: string, b: string, t: string, c: string)
    requires Blank(b) && Blank(c) && t != "" && t[0] > ' ' && text == b + (t + c)
    ensures var rest := c + [NUL];
            Delimits(rest) && SkipWhitespace(text + [NUL]) == t + rest && SkipWhitespace(rest)[0] == NUL
  {
    var rest := c + [NUL];
    assert text + [NUL] == b + (t + rest);
    assert (t + rest)[0] == t[0];
    TerminatedTail(c, [NUL]);
    TerminatedTail(t, rest);
    SkipsTo(b, t + rest);
    assert rest[0] == if c == "" then NUL else c[0];
    SkipsBlank(c, [NUL]);
  }

  /** So no text is two documents. */
  lemma Unambiguous(text: string, v: Value, w: Value)
    requires IsCString(text) && !StartsWith(text, BYTE_ORDER_MARK)
    requires Document(text, v) && Nesting(v) <= NESTING_LIMIT && Document(text, w) && Nesting(w) <= NESTING_LIMIT
    ensures v == w
  {
    AcceptsExactly(text, v);
    AcceptsExactly(text, w);
  }

  /** A byte order mark in front makes no difference. */
  lemma MarkIgnored(text: string, requireNullTerminated: bool)
    requires text != "" && !StartsWith(text, BYTE_ORDER_MARK)
    ensures ParseText(BYTE_ORDER_MARK + text, requireNullTerminated) == ParseText(text, requireNullTerminated)
  {
    NoMark(text);
    var s := BYTE_ORDER_MARK + text + [NUL];
    assert s[..3] == BYTE_ORDER_MARK && s[3..] == text + [NUL];
    hide ParseValue, SkipWhitespace;
  }

  /** Without the demand for a final NUL, what is accepted begins with a document ... */
  lemma PrefixAccepted(text: string, v: Value) returns (n: nat)
    requires IsCString(text) && !StartsWith(text, BYTE_ORDER_MARK) && ParseText(text, false) == Some(v)
    ensures n <= |text| && Document(text[..n], v) && Nesting(v) <= NESTING_LIMIT
  {
    NoMark(text);
    ParsedTree(text, false);
    var s := text + [NUL];
    var front := SkipWhitespace(s);
    var r := ParseValue(front, 0);
    hide ParseValue, SkipWhitespace, ValueIs, Blank, SkipByteOrderMark, Nesting, Document, IsCString, Storable;
    var b := BlanksSkipped(s);
    var t := ValueAccepted(front, 0);
    Associative(b, t, r.rest);
    n := |b + t|;
    FrontPart(text, b + t, r.rest);
    assert (b + t) + "" == b + t;
    BlankNothing();
    DocumentIs(text[..n], b, t, "", v);
  }

  lemma BlankNothing()
    ensures Blank("")
  {}

  lemma FrontPart(text: string, front: string, rest: string)
    requires text + [NUL] == front + rest && Terminated(rest)
    ensures |front| <= |text| && text[..|front|] == front
  {
    assert (text + [NUL])[..|front|] == front;
  }

  /** ... and a text that begins with one is accepted, unless a number goes on. */
  lemma PrefixRead(text: string, v: Value, n: nat)
    requires IsCString(text) && !StartsWith(text, BYTE_ORDER_MARK)
    requires n <= |text| && Document(text[..n], v) && Nesting(v) <= NESTING_LIMIT && Delimits(text[n..] + [NUL])
    ensures ParseText(text, false) == Some(v)
  {
    var b, t, c :| Blank(b) && Blank(c) && ValueIs(t, v) && text[..n] == b + (t + c);
    var rest := c + (text[n..] + [NUL]);
    NoMark(text);
    Starts(t, v);
    FrontOf(text, n, b, t, c);
    ValueRead(t, v, rest, 0);
    hide ParseValue, ValueIs, Blank, SkipByteOrderMark, Nesting, SkipWhitespace;
  }

  lemma FrontOf(text: string, n: nat, b: string, t: string, c: string)
    requires n <= |text| && Delimits(text[n..] + [NUL])
    requires Blank(b) && Blank(c) && t != "" && t[0] > ' ' && text[..n] == b + (t + c)
    ensures var rest := c + (text[n..] + [NUL]);
            Delimits(rest) && SkipWhitespace(text + [NUL]) == t + rest
  {
    var tail := text[n..] + [NUL];
    var rest := c + tail;
    SplitAt(text, n);
    Gathered(b, t, c, tail, text + [NUL]);
    BlankDelimits(c, tail);
    TerminatedTail(t, rest);
    assert (t + rest)[0] == t[0];
    SkipsTo(b, t + rest);
    hide SkipWhitespace;
  }

  lemma SplitAt(text: string, n: nat)
    requires n <= |text|
    ensures text + [NUL] == text[..n] + (text[n..] + [NUL])
  {}

  lemma Gathered(b: string, t: string, c: string, tail: string, s: string)
    requires s == (b + (t + c)) + tail
    ensures s == b + (t + (c + tail))
  {
    Associative(b, t + c, tail);
    Associative(t, c, tail);
  }

  lemma BlankDelimits(c: string, tail: string)
    requires Blank(c) && Delimits(tail)
    ensures Delimits(c + tail)
  {
    TerminatedTail(c, tail);
    assert (c + tail)[0] == if c == "" then tail[0] else c[0];
  }
}

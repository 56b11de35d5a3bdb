/**
 What the trees that come out of the parser look like: strings a C program can hold, no node without
 a type, and nesting within the limit. So a parsed tree of whole numbers prints, and parses back.
 */
module Parsed {
  import opened CString
  import opened Digits
  import opened Json
  import opened Render
  import opened Parse
  import opened RoundTrip
  import opened Overrun

  predicate Bytes(s: string) {
    forall i :: 0 <= i < |s| ==> s[i] as int < 256
  }

  lemma BytesEnd(t: string, s: string)
    requires Bytes(s) && EndOf(t, s)
    ensures Bytes(t)
  {}

  // ---- Strings ------------------------------------------------------------------------------

  lemma {:induction false} CutIsCString(s: string)
    requires Bytes(s)
    ensures IsCString(UpToNul(s))
  {
    if s != [] && s[0] != NUL { CutIsCString(s[1..]); }
  }

  lemma Utf8IsBytes(codepoint: nat)
    requires codepoint < 0x110000
    ensures Bytes(Utf8(codepoint))
  {
    assert 0xF0 + codepoint / 262144 < 256;
  }

  lemma LiteralIsBytes(s: string, room: nat)
    requires room <= |s| && Utf16Literal(s, room).Literal?
    ensures Bytes(Utf16Literal(s, room).bytes)
  {
    hide Utf8, ParseHex4;
    forall codepoint: nat | codepoint < 0x110000 ensures Bytes(Utf8(codepoint)) {
      Utf8IsBytes(codepoint);
    }
  }

  lemma JoinBytes(a: string, more: Option<string>)
    requires Bytes(a) && (more.Some? ==> Bytes(more.value))
    ensures Prepend(a, more).Some? ==> Bytes(Prepend(a, more).value)
  {}

  /** Unescaping bytes yields bytes. */
  lemma {:induction false} UnescapeIsBytes(s: string, room: nat)
    requires room < |s| && Bytes(s)
    ensures Unescape(s, room).Some? ==> Bytes(Unescape(s, room).value)
    decreases room
  {
    hide Utf16Literal, Prepend;
    if room > 0 {
      if s[0] != BACKSLASH {
        UnescapeIsBytes(s[1..], room - 1);
        JoinBytes([s[0]], Unescape(s[1..], room - 1));
      } else if s[1] == 'u' {
        var u := Utf16Literal(s, room);
        if u.Literal? {
          LiteralIsBytes(s, room);
          UnescapeIsBytes(s[u.length..], room - u.length);
          JoinBytes(u.bytes, Unescape(s[u.length..], room - u.length));
        }
      } else if SimpleEscape(s[1]).Some? {
        var more := if room == 1 then Some("") else Unescape(s[2..], room - 2);
        if room > 1 { UnescapeIsBytes(s[2..], room - 2); }
        JoinBytes([SimpleEscape(s[1]).value], more);
      }
    }
  }

  lemma StringParsed(s: string)
    requires Terminated(s) && Bytes(s)
    ensures ParseString(s).Success? ==> IsCString(ParseString(s).value)
  {
    hide Unescape, FindClose, UpToNul;
    var r := FindClose(s[1..]);
    if r.Some? {
      UnescapeIsBytes(s[1..], r.value);
      var text := Unescape(s[1..], r.value);
      if text.Some? { CutIsCString(text.value); }
    }
  }

  lemma KeyParsed(s: string)
    requires Terminated(s) && Bytes(s)
    ensures ParseKey(s).Success? ==> IsCString(ParseKey(s).value) && Bytes(ParseKey(s).rest)
  {
    hide ParseString, SkipWhitespace;
    SkipLeavesEnd(s);
    BytesEnd(SkipWhitespace(s), s);
    StringParsed(SkipWhitespace(s));
    KeyLeavesEnd(s);
    if ParseKey(s).Success? { BytesEnd(ParseKey(s).rest, s); }
  }

  // ---- Trees --------------------------------------------------------------------------------

  /** A tree without `Invalid` nodes whose strings and keys are C strings. */
  predicate Storable(v: Value) {
    match v
    case Invalid => false
    case String(text) => IsCString(text)
    case Array(items) => forall i :: 0 <= i < |items| ==> Storable(items[i])
    case Object(members) =>
      forall i :: 0 <= i < |members| ==> IsCString(members[i].key) && Storable(members[i].item)
    case _ => true
  }

  predicate WholeNumbers(v: Value) {
    match v
    case Number(num) => IsWhole(num)
    case Array(items) => forall i :: 0 <= i < |items| ==> WholeNumbers(items[i])
    case Object(members) => forall i :: 0 <= i < |members| ==> WholeNumbers(members[i].item)
    case _ => true
  }

  lemma {:induction false} StorableWhole(v: Value)
    ensures Printable(v) <==> Storable(v) && WholeNumbers(v)
  {
    match v
    case Array(items) =>
      forall i | 0 <= i < |items| ensures Printable(items[i]) <==> Storable(items[i]) && WholeNumbers(items[i]) {
        StorableWhole(items[i]);
      }
    case Object(members) =>
      forall i | 0 <= i < |members|
        ensures Printable(members[i].item) <==> Storable(members[i].item) && WholeNumbers(members[i].item)
      {
        StorableWhole(members[i].item);
      }
    case _ =>
  }

  /** A tree that `depth` further containers may enclose. */
  predicate Fits(v: Value, depth: nat) {
    Storable(v) && Nesting(v) + depth <= NESTING_LIMIT
  }

  predicate ItemsFit(items: seq<Value>, depth: nat) {
    (forall i :: 0 <= i < |items| ==> Storable(items[i])) && ItemsNesting(items) + depth <= NESTING_LIMIT
  }

  predicate MembersFit(members: Members, depth: nat) {
    && (forall i :: 0 <= i < |members| ==> IsCString(members[i].key) && Storable(members[i].item))
    && MembersNesting(members) + depth <= NESTING_LIMIT
  }

  lemma OneItem(item: Value, depth: nat)
    requires Fits(item, depth)
    ensures ItemsFit([item], depth)
  {
    assert [item][1..] == [];
  }

  lemma MoreItems(item: Value, more: seq<Value>, depth: nat)
    requires Fits(item, depth) && ItemsFit(more, depth)
    ensures ItemsFit([item] + more, depth)
  {
    assert ([item] + more)[1..] == more;
  }

  lemma OneMember(key: string, item: Value, depth: nat)
    requires IsCString(key) && Fits(item, depth)
    ensures MembersFit([Entry(key, item)], depth)
  {
    assert [Entry(key, item)][1..] == [];
  }

  lemma MoreMembers(key: string, item: Value, more: Members, depth: nat)
    requires IsCString(key) && Fits(item, depth) && MembersFit(more, depth)
    ensures MembersFit([Entry(key, item)] + more, depth)
  {
    assert ([Entry(key, item)] + more)[1..] == more;
  }

  lemma {:induction false} ValueParsed(s: string, depth: nat)
    requires Terminated(s) && Bytes(s) && depth <= NESTING_LIMIT
    ensures ParseValue(s, depth).Success? ==> Fits(ParseValue(s, depth).value, depth)
    decreases |s|, 1
  {
    hide ParseValue, ParseArray, ParseObject, ParseItems, ParseMembers, ParseString, SkipWhitespace, StringToDouble,
      NumberText, StartsWith, Bytes, EndOf;
    ValueByFirstByte(s, depth);
    StringParsed(s);
    if depth >= NESTING_LIMIT {
      TooDeep(s, depth);
    } else if s[0] == '[' {
      ArrayStep(s, depth);
      InsideIsBytes(s);
      ItemsParsed(SkipWhitespace(s[1..]), depth + 1);
    } else if s[0] == '{' {
      ObjectStep(s, depth);
      InsideIsBytes(s);
      MembersParsed(SkipWhitespace(s[1..]), depth + 1);
    }
  }

  lemma InsideIsBytes(s: string)
    requires Terminated(s) && Bytes(s) && |s| > 1
    ensures Bytes(SkipWhitespace(s[1..]))
  {
    PastMark(s[1..], s);
    BytesEnd(SkipWhitespace(s[1..]), s);
  }

  lemma {:induction false} ItemsParsed(s: string, depth: nat)
    requires Terminated(s) && Bytes(s) && depth <= NESTING_LIMIT
    ensures ParseItems(s, depth).Success? ==> ItemsFit(ParseItems(s, depth).value, depth)
    decreases |s|, 2
  {
    hide ParseItems, ParseValue, SkipWhitespace, Bytes, EndOf, Fits, ItemsFit;
    ItemsStep(s, depth);
    SkipLeavesEnd(s);
    BytesEnd(SkipWhitespace(s), s);
    var r := ParseValue(SkipWhitespace(s), depth);
    ValueParsed(SkipWhitespace(s), depth);
    if r.Success? {
      OneItem(r.value, depth);
      ValueLeavesEnd(SkipWhitespace(s), depth);
      EndOfEnd(r.rest, SkipWhitespace(s), s);
      PastMark(r.rest, s);
      var t := SkipWhitespace(r.rest);
      if t[0] == ',' {
        BytesEnd(t[1..], s);
        ItemsParsed(t[1..], depth);
        var more := ParseItems(t[1..], depth);
        if more.Success? { MoreItems(r.value, more.value, depth); }
      }
    }
  }

  lemma {:induction false} MembersParsed(s: string, depth: nat)
    requires Terminated(s) && Bytes(s) && depth <= NESTING_LIMIT
    ensures ParseMembers(s, depth).Success? ==> MembersFit(ParseMembers(s, depth).value, depth)
    decreases |s|, 2
  {
    hide ParseMembers, ParseKey, ParseValue, SkipWhitespace, Bytes, EndOf, Fits, MembersFit;
    MembersStep(s, depth);
    KeyParsed(s);
    KeyLeavesEnd(s);
    var k := ParseKey(s);
    if k.Success? {
      ValueParsed(k.rest, depth);
      var r := ParseValue(k.rest, depth);
      if r.Success? {
        OneMember(k.value, r.value, depth);
        ValueLeavesEnd(k.rest, depth);
        EndOfEnd(r.rest, k.rest, s);
        PastMark(r.rest, s);
        var t := SkipWhitespace(r.rest);
        if t[0] == ',' {
          BytesEnd(t[1..], s);
          MembersParsed(t[1..], depth);
          var more := ParseMembers(t[1..], depth);
          if more.Success? { MoreMembers(k.value, r.value, more.value, depth); }
        }
      }
    }
  }

  // ---- The whole text -----------------------------------------------------------------------

  /** Whatever the text, a tree parsed from it is complete, holds C strings, and respects the limit. */
  lemma ParsedTree(text: string, requireNullTerminated: bool)
    requires IsCString(text)
    ensures var r := ParseText(text, requireNullTerminated);
            r.Some? ==> Storable(r.value) && Nesting(r.value) <= NESTING_LIMIT
  {
    hide ParseValue, SkipWhitespace, Storable;
    var s := SkipByteOrderMark(text + [NUL]);
    assert Bytes(s);
    SkipLeavesEnd(s);
    BytesEnd(SkipWhitespace(s), s);
    ValueParsed(SkipWhitespace(s), 0);
  }

  /** A parsed tree of whole numbers, printed in either format, parses to itself. */
  lemma ParseThenPrint(text: string, requireNullTerminated: bool, format: bool, again: bool)
    requires IsCString(text)
    ensures var r := ParseText(text, requireNullTerminated);
            r.Some? && WholeNumbers(r.value) ==> ParseText(RenderValue(r.value, format, 0), again) == r
  {
    hide ParseText, RenderValue;
    ParsedTree(text, requireNullTerminated);
    var r := ParseText(text, requireNullTerminated);
    if r.Some? && WholeNumbers(r.value) {
      StorableWhole(r.value);
      PrintThenParse(r.value, format, again);
    }
  }
}

/**
 Exactly which inputs leave the cursor behind the NUL: those that stop behind an opening brace or a
 comma and become a document once a member and closing brackets are added there.
 */
module Truncated {
  import opened CString
  import opened Digits
  import opened Json
  import opened Render
  import opened Parse
  import opened RoundTrip
  import opened Overrun

  // ---- What is read in front of a mark does not depend on what follows it -------------------

  function Front(t: string, x: string): string
    requires |x| <= |t|
  {
    t[..|t| - |x|]
  }

  /** Whatever was read without touching `x` is read the same with `y` in its place. */
  predicate Same<T(==)>(r: Result<T>, x: string, other: Result<T>, y: string) {
    r.Success? && |r.rest| >= |x| ==> other == Success(r.value, Front(r.rest, x) + y)
  }

  lemma Splits(p: string, x: string, t: string)
    requires EndOf(t, p + x) && |t| >= |x| && Marked(p)
    ensures t == Front(t, x) + x && EndOf(Front(t, x), p) && Marked(Front(t, x))
  {
    assert t[|t| - |x|..] == x;
    assert p == (p + x)[..|p|];
  }

  /** The input in front of the mark without the blanks at its start. */
  function DropBlanks(p: string): (r: string)
    ensures EndOf(r, p)
    ensures r != "" ==> r[0] > ' '
  {
    if p == "" || p[0] > ' ' then p
    else
      EndOfEnd(DropBlanks(p[1..]), p[1..], p);
      DropBlanks(p[1..])
  }

  lemma {:induction false} StillThere(p: string)
    requires Marked(p) && p != ""
    ensures DropBlanks(p) != "" && Marked(DropBlanks(p)) && Marked(DropBlanks(p)[1..])
    ensures |DropBlanks(p)| == 1 ==> Marked([DropBlanks(p)[0]])
  {
    if p[0] <= ' ' {
      StillThere(p[1..]);
    }
  }

  /** Skipping blanks in front of a mark never gets past it. */
  lemma SkipsWithin(p: string, x: string)
    requires Marked(p) && p != "" && Terminated(x)
    ensures DropBlanks(p) != "" && Marked(DropBlanks(p)) && Marked(DropBlanks(p)[1..])
    ensures |DropBlanks(p)| == 1 ==> Marked([DropBlanks(p)[0]])
    ensures Terminated(p + x) && SkipWhitespace(p + x) == DropBlanks(p) + x
    ensures (DropBlanks(p) + x)[1..] == DropBlanks(p)[1..] + x
  {
    hide Marked, EndOf, DropBlanks, SkipWhitespace, Terminated;
    StillThere(p);
    SkipsToFront(p, x);
    OneLess(DropBlanks(p), x);
  }

  lemma OneLess(q: string, x: string)
    requires q != ""
    ensures (q + x)[1..] == q[1..] + x
  {}

  lemma {:induction false} SkipsToFront(p: string, x: string)
    requires Terminated(x) && DropBlanks(p) != ""
    ensures Terminated(p + x) && SkipWhitespace(p + x) == DropBlanks(p) + x
  {
    hide Marked, EndOf;
    if p[0] <= ' ' {
      assert (p + x)[1..] == p[1..] + x;
      SkipsToFront(p[1..], x);
    }
  }

  // ---- Strings, numbers and constants -------------------------------------------------------

  /** The closing quote is found in front of the mark, whatever follows, or not there. */
  lemma {:induction false} CloseWithin(p: string, x: string, y: string)
    requires Marked(p)
    ensures FindClose(p + x).Some? && FindClose(p + x).value < |p| ==>
              FindClose(p + y) == FindClose(p + x) && FindClose(p + x).value + 1 < |p|
    ensures x != "" && x[0] == QUOTE && FindClose(p + x).Some? && FindClose(p + x).value >= |p| ==>
              FindClose(p + x).value == |p|
  {
    if p == "" {
      assert p + x == x;
    } else if p[0] == BACKSLASH {
      assert (p + x)[2..] == p[2..] + x;
      assert (p + y)[2..] == p[2..] + y;
      CloseWithin(p[2..], x, y);
    } else {
      assert (p + x)[1..] == p[1..] + x;
      assert (p + y)[1..] == p[1..] + y;
      if p[0] != QUOTE { CloseWithin(p[1..], x, y); }
    }
  }

  /** The second pass looks no further than the closing quote. */
  lemma {:induction false} UnescapeWithin(s: string, t: string, room: nat)
    requires room < |s| && room < |t| && s[..room + 1] == t[..room + 1]
    ensures Unescape(s, room) == Unescape(t, room)
    decreases room
  {
    assert forall i :: 0 <= i <= room ==> s[i] == s[..room + 1][i] == t[..room + 1][i] == t[i];
    if room > 0 {
      if s[0] != BACKSLASH {
        UnescapeFurther(s, t, room, 1);
      } else if s[1] == 'u' {
        LiteralWithin(s, t, room);
        var u := Utf16Literal(s, room);
        if u.Literal? { UnescapeFurther(s, t, room, u.length); }
      } else if room > 1 {
        UnescapeFurther(s, t, room, 2);
      }
    }
  }

  lemma {:induction false} UnescapeFurther(s: string, t: string, room: nat, n: nat)
    requires 0 < n <= room < |s| && room < |t| && s[..room + 1] == t[..room + 1]
    ensures Unescape(s[n..], room - n) == Unescape(t[n..], room - n)
    decreases room, 0
  {
    assert s[n..][..room - n + 1] == s[..room + 1][n..] == t[..room + 1][n..] == t[n..][..room - n + 1];
    UnescapeWithin(s[n..], t[n..], room - n);
  }

  lemma LiteralWithin(s: string, t: string, room: nat)
    requires room < |s| && room < |t|
    requires forall i :: 0 <= i <= room ==> s[i] == t[i]
    ensures Utf16Literal(s, room) == Utf16Literal(t, room)
  {
    if room >= 6 { assert s[2..6] == t[2..6]; }
    if room >= 12 { assert s[8..12] == t[8..12]; }
  }

  lemma StringWithin(p: string, x: string, y: string)
    requires Marked(p) && p != "" && Terminated(x) && Terminated(y)
    ensures Same(ParseString(p + x), x, ParseString(p + y), y)
    ensures x[0] == QUOTE && ParseString(p + x).Success? && |ParseString(p + x).rest| < |x| ==>
              ParseString(p + x).rest == x[1..]
  {
    hide FindClose, Unescape, UpToNul;
    if p[0] == QUOTE {
      var q := p[1..];
      assert (p + x)[1..] == q + x && (p + y)[1..] == q + y;
      CloseWithin(q, x, y);
      var n := FindClose(q + x);
      if n.Some? {
        if n.value < |q| {
          assert (q + x)[..n.value + 1] == (q + y)[..n.value + 1];
          UnescapeWithin(q + x, q + y, n.value);
          assert (p + x)[n.value + 2..] == p[n.value + 2..] + x;
          assert (p + y)[n.value + 2..] == p[n.value + 2..] + y;
        } else if n.value == |q| {
          assert (p + x)[n.value + 2..] == x[1..];
        }
      }
    }
  }

  lemma {:induction false} NumberWithin(p: string, x: string, y: string, limit: nat)
    requires Marked(p) && p != ""
    ensures NumberText(p + x, limit) == NumberText(p + y, limit)
    ensures |NumberText(p + x, limit)| < |p|
  {
    if limit > 0 && IsNumberChar(p[0]) {
      assert (p + x)[1..] == p[1..] + x;
      assert (p + y)[1..] == p[1..] + y;
      NumberWithin(p[1..], x, y, limit - 1);
    }
  }

  lemma ParsesNumberWithin(p: string, x: string, y: string)
    requires Marked(p) && p != "" && Terminated(x) && Terminated(y)
    ensures Same(ParseNumber(p + x), x, ParseNumber(p + y), y)
    ensures ParseNumber(p + x).Success? ==> |ParseNumber(p + x).rest| > |x|
  {
    hide NumberText, StringToDouble;
    NumberWithin(p, x, y, 63);
    var d := StringToDouble(NumberText(p + x, 63));
    assert (p + x)[d.end..] == p[d.end..] + x;
    assert (p + y)[d.end..] == p[d.end..] + y;
  }

  lemma WordWithin(p: string, x: string, word: string)
    requires Marked(p) && p != "" && '{' !in word && ',' !in word
    ensures StartsWith(p + x, word) <==> StartsWith(p, word) && |word| < |p|
  {
    var last := (p + x)[|p| - 1];
    forall i | 0 <= i < |word| ensures word[i] != last {
      assert word[i] in word;
    }
    if |word| < |p| {
      assert p[..|word|] == (p + x)[..|word|];
    } else if |word| <= |p + x| {
      assert (p + x)[..|word|][|p| - 1] == last;
    }
  }

  lemma PastWordWithin(p: string, x: string, y: string, word: string)
    requires Marked(p) && p != "" && Terminated(x) && Terminated(y)
    requires word in {"null", "false", "true"}
    ensures StartsWith(p + x, word) <==> StartsWith(p + y, word)
    ensures StartsWith(p + x, word) ==>
              && |AfterWord(p + x, word)| > |x|
              && AfterWord(p + y, word) == Front(AfterWord(p + x, word), x) + y
  {
    hide StartsWith;
    WordWithin(p, x, word);
    WordWithin(p, y, word);
    if StartsWith(p + x, word) {
      assert (p + x)[|word|..] == p[|word|..] + x;
      assert (p + y)[|word|..] == p[|word|..] + y;
    }
  }

  lemma ConstantWithin(p: string, x: string, y: string)
    requires Marked(p) && p != "" && Terminated(x) && Terminated(y)
    ensures Same(ParseConstant(p + x), x, ParseConstant(p + y), y)
    ensures ParseConstant(p + x).Success? ==> |ParseConstant(p + x).rest| > |x|
  {
    hide StartsWith, AfterWord, Front;
    PastWordWithin(p, x, y, "null");
    PastWordWithin(p, x, y, "false");
    PastWordWithin(p, x, y, "true");
  }

  // ---- Keys, values and the two loops -------------------------------------------------------

  /** The next byte behind something that was read in front of the mark. */
  lemma NextWithin<T>(r: Result<T>, p: string, x: string, other: Result<T>, y: string)
    requires Marked(p) && Terminated(x) && Terminated(y)
    requires LeavesEnd(r, p + x) && Same(r, x, other, y) && r.Success? && |r.rest| > |x| && Terminated(r.rest)
    ensures other == Success(r.value, Front(r.rest, x) + y) && Terminated(other.rest)
    ensures r.rest == Front(r.rest, x) + x && Marked(Front(r.rest, x)) && 0 < |Front(r.rest, x)| <= |p|
    ensures var q := DropBlanks(Front(r.rest, x));
            && 0 < |q| <= |p| && Marked(q) && Marked(q[1..])
            && (|q| == 1 ==> Marked([q[0]]))
            && SkipWhitespace(r.rest) == q + x && SkipWhitespace(other.rest) == q + y
            && (q + x)[1..] == q[1..] + x && (q + y)[1..] == q[1..] + y
            && (q + x)[0] == (q + y)[0] == q[0]
            && Front((q + x)[1..], x) == q[1..]
  {
    hide SkipWhitespace;
    var t := Front(r.rest, x);
    Splits(p, x, r.rest);
    SkipsWithin(t, x);
    SkipsWithin(t, y);
  }

  lemma FrontIs(q: string, x: string)
    ensures Front(q + x, x) == q
  {}

  lemma ColonGoesOn(q: string)
    requires q != "" && q[0] == ':' && (|q| == 1 ==> Marked([q[0]]))
    ensures q[1..] != ""
  {}

  lemma KeyWithin(p: string, x: string, y: string)
    requires Marked(p) && p != "" && Terminated(x) && Terminated(y)
    ensures Same(ParseKey(p + x), x, ParseKey(p + y), y)
    ensures ParseKey(p + x).Success? && |ParseKey(p + x).rest| >= |x| ==> |ParseKey(p + x).rest| > |x|
  {
    hide ParseString, SkipWhitespace, Front, Marked, DropBlanks, EndOf;
    SkipsWithin(p, x);
    SkipsWithin(p, y);
    var t := DropBlanks(p);
    StringWithin(t, x, y);
    StringLeavesEnd(t + x);
    var r := ParseString(t + x);
    if r.Success? && |r.rest| > |x| {
      NextWithin(r, t, x, ParseString(t + y), y);
      var colon := DropBlanks(Front(r.rest, x));
      if colon[0] == ':' {
        ColonGoesOn(colon);
        SkipsWithin(colon[1..], x);
        SkipsWithin(colon[1..], y);
        FrontIs(DropBlanks(colon[1..]), x);
      }
    }
  }

  lemma {:induction false} ValueWithin(p: string, x: string, y: string, depth: nat)
    requires Marked(p) && p != "" && Terminated(x) && Terminated(y)
    ensures Same(ParseValue(p + x, depth), x, ParseValue(p + y, depth), y)
    decreases |p|, 1
  {
    hide ParseValue, ParseArray, ParseObject, ParseString, ParseConstant, ParseNumber, ItemsThroughEnd, MembersThroughEnd,
      SkipWhitespace;
    assert (p + x)[0] == (p + y)[0] == p[0];
    ValueByFirstByte(p + x, depth);
    ValueByFirstByte(p + y, depth);
    StringWithin(p, x, y);
    ParsesNumberWithin(p, x, y);
    ConstantWithin(p, x, y);
    if depth >= NESTING_LIMIT {
      TooDeep(p + x, depth);
      TooDeep(p + y, depth);
    } else if p[0] == '[' {
      ArrayStep(p + x, depth);
      ArrayStep(p + y, depth);
      assert (p + x)[1..] == p[1..] + x && (p + y)[1..] == p[1..] + y;
      ArrayWithin(p[1..], x, y, depth + 1);
    } else if p[0] == '{' {
      ObjectStep(p + x, depth);
      ObjectStep(p + y, depth);
      assert (p + x)[1..] == p[1..] + x && (p + y)[1..] == p[1..] + y;
      ObjectWithin(p[1..], x, y, depth + 1);
    }
  }

  lemma ArrayWithin(p: string, x: string, y: string, depth: nat)
    requires Marked(p) && Terminated(x) && Terminated(y)
    ensures Terminated(p + x) && Terminated(p + y)
    ensures Same(ItemsThroughEnd(SkipWhitespace(p + x), depth), x, ItemsThroughEnd(SkipWhitespace(p + y), depth), y)
    decreases |p|, 4
  {
    hide ParseItems, SkipWhitespace;
    if p != "" {
      SkipsWithin(p, x);
      SkipsWithin(p, y);
      ItemsWithin(DropBlanks(p), x, y, depth);
    } else {
      assert p + x == x;
    }
  }

  lemma ObjectWithin(p: string, x: string, y: string, depth: nat)
    requires Marked(p) && Terminated(x) && Terminated(y)
    ensures Terminated(p + x) && Terminated(p + y)
    ensures Same(MembersThroughEnd(SkipWhitespace(p + x), depth), x, MembersThroughEnd(SkipWhitespace(p + y), depth), y)
    decreases |p|, 4
  {
    hide ParseMembers, SkipWhitespace;
    if p != "" {
      SkipsWithin(p, x);
      SkipsWithin(p, y);
      MembersWithin(DropBlanks(p), x, y, depth);
    } else {
      assert p + x == x;
    }
  }

  lemma {:induction false} ItemsWithin(p: string, x: string, y: string, depth: nat)
    requires Marked(p) && Terminated(x) && Terminated(y)
    ensures Terminated(p + x) && Terminated(p + y)
    ensures Same(ParseItems(p + x, depth), x, ParseItems(p + y, depth), y)
    decreases |p|, 2
  {
    hide ParseItems, ParseValue, SkipWhitespace, Front, Marked, DropBlanks, EndOf;
    if p != "" {
      ItemsStep(p + x, depth);
      ItemsStep(p + y, depth);
      SkipsWithin(p, x);
      SkipsWithin(p, y);
      var t := DropBlanks(p);
      ValueWithin(t, x, y, depth);
      ValueLeavesEnd(t + x, depth);
      var r := ParseValue(t + x, depth);
      if r.Success? && |r.rest| > |x| {
        NextWithin(r, t, x, ParseValue(t + y, depth), y);
        ItemsWithin(DropBlanks(Front(r.rest, x))[1..], x, y, depth);
      }
    } else {
      assert p + x == x;
    }
  }

  lemma {:induction false} MembersWithin(p: string, x: string, y: string, depth: nat)
    requires Marked(p) && Terminated(x) && Terminated(y)
    ensures Terminated(p + x) && Terminated(p + y)
    ensures Same(ParseMembers(p + x, depth), x, ParseMembers(p + y, depth), y)
    decreases |p|, 2
  {
    hide ParseMembers, ParseKey, ParseValue, SkipWhitespace, Front, Marked, DropBlanks, EndOf;
    if p != "" {
      MembersStep(p + x, depth);
      MembersStep(p + y, depth);
      KeyWithin(p, x, y);
      KeyLeavesEnd(p + x);
      var k := ParseKey(p + x);
      if k.Success? && |k.rest| > |x| {
        NextWithin(k, p, x, ParseKey(p + y), y);
        var t := Front(k.rest, x);
        ValueWithin(t, x, y, depth);
        ValueLeavesEnd(t + x, depth);
        var r := ParseValue(t + x, depth);
        if r.Success? && |r.rest| > |x| {
          NextWithin(r, t, x, ParseValue(t + y, depth), y);
          MembersWithin(DropBlanks(Front(r.rest, x))[1..], x, y, depth);
        }
      }
    } else {
      assert p + x == x;
    }
  }

  // ---- A document that goes on behind the mark with a member --------------------------------

  /** Input that starts with an empty name and its colon. */
  predicate EmptyName(x: string) {
    Terminated(x) && |x| > 2 && x[0] == QUOTE && x[1] == QUOTE && x[2] == ':'
  }

  /** What needs some of `x` to succeed runs into the end when only blanks are there. */
  predicate Needs<T(==)>(r: Result<T>, x: string, other: Result<T>) {
    r.Success? && |r.rest| < |x| ==> other == Failure(true)
  }

  /** A single value may also take the first quote of `x` for its own closing quote. */
  predicate NeedsOrCloses(r: Result<Value>, x: string, other: Result<Value>)
    requires r.Success? ==> Terminated(r.rest)
  {
    r.Success? && |r.rest| < |x| ==> other == Failure(true) || r.rest[0] == QUOTE
  }

  /** A name that starts in front of the mark does not reach behind it. */
  lemma KeyInFront(p: string, x: string)
    requires Marked(p) && p != "" && EmptyName(x)
    ensures Terminated(p + x)
    ensures ParseKey(p + x).Success? ==> |ParseKey(p + x).rest| > |x|
  {
    hide ParseString, SkipWhitespace, Front, Marked, DropBlanks, EndOf;
    SkipsWithin(p, x);
    var t := DropBlanks(p);
    var r := ParseString(t + x);
    if r.Success? {
      StringLeavesEnd(t + x);
      StringWithin(t, x, x);
      if |r.rest| > |x| {
        NextWithin(r, t, x, r, x);
        var colon := DropBlanks(Front(r.rest, x));
        if colon[0] == ':' {
          ColonGoesOn(colon);
          SkipsWithin(colon[1..], x);
        }
      } else {
        QuoteNext(t, x, r);
      }
    }
  }

  lemma QuoteNext(t: string, x: string, r: Result<string>)
    requires Marked(t) && EmptyName(x) && r.Success? && Terminated(r.rest) && |r.rest| <= |x| && EndOf(r.rest, t + x)
    requires |r.rest| < |x| ==> r.rest == x[1..]
    ensures r.rest[0] == QUOTE && SkipWhitespace(r.rest) == r.rest
  {
    if |r.rest| == |x| { Splits(t, x, r.rest); }
  }

  lemma {:induction false} ValueNeeds(p: string, x: string, y: string, depth: nat)
    requires Marked(p) && p != "" && EmptyName(x) && Terminated(y) && Blank(y)
    ensures Terminated(p + x) && Terminated(p + y)
    ensures NeedsOrCloses(ParseValue(p + x, depth), x, ParseValue(p + y, depth))
    decreases |p|, 1
  {
    hide ParseValue, ParseArray, ParseObject, ParseString, ParseConstant, ParseNumber, ItemsThroughEnd, MembersThroughEnd,
      SkipWhitespace;
    assert (p + x)[0] == (p + y)[0] == p[0];
    ValueByFirstByte(p + x, depth);
    ValueByFirstByte(p + y, depth);
    StringWithin(p, x, y);
    ParsesNumberWithin(p, x, y);
    ConstantWithin(p, x, y);
    if depth >= NESTING_LIMIT {
      TooDeep(p + x, depth);
      TooDeep(p + y, depth);
    } else if p[0] == '[' {
      ArrayStep(p + x, depth);
      ArrayStep(p + y, depth);
      assert (p + x)[1..] == p[1..] + x && (p + y)[1..] == p[1..] + y;
      ArrayNeeds(p[1..], x, y, depth + 1);
    } else if p[0] == '{' {
      ObjectStep(p + x, depth);
      ObjectStep(p + y, depth);
      assert (p + x)[1..] == p[1..] + x && (p + y)[1..] == p[1..] + y;
      ObjectNeeds(p[1..], x, y, depth + 1);
    }
  }

  lemma ArrayNeeds(p: string, x: string, y: string, depth: nat)
    requires Marked(p) && p != "" && EmptyName(x) && Terminated(y) && Blank(y)
    ensures Terminated(p + x) && Terminated(p + y)
    ensures Needs(ItemsThroughEnd(SkipWhitespace(p + x), depth), x, ItemsThroughEnd(SkipWhitespace(p + y), depth))
    decreases |p|, 4
  {
    hide ParseItems, SkipWhitespace;
    SkipsWithin(p, x);
    SkipsWithin(p, y);
    ItemsNeed(DropBlanks(p), x, y, depth);
  }

  lemma ObjectNeeds(p: string, x: string, y: string, depth: nat)
    requires Marked(p) && EmptyName(x) && Terminated(y) && Blank(y)
    ensures Terminated(p + x) && Terminated(p + y)
    ensures Needs(MembersThroughEnd(SkipWhitespace(p + x), depth), x, MembersThroughEnd(SkipWhitespace(p + y), depth))
    decreases |p|, 4
  {
    hide ParseMembers, SkipWhitespace;
    if p != "" {
      SkipsWithin(p, x);
      SkipsWithin(p, y);
      MembersNeed(DropBlanks(p), x, y, depth);
    } else {
      assert p + x == x && p + y == y;
      OnlyBlanksLeft(y, depth);
    }
  }

  /** Between a brace or comma and the end of the input a name is missing. */
  lemma OnlyBlanksLeft(y: string, depth: nat)
    requires Terminated(y) && Blank(y)
    ensures SkipWhitespace(y) == [NUL]
    ensures ParseMembers(y, depth) == Failure(true)
    ensures ParseMembers([NUL], depth) == MembersThroughEnd([NUL], depth) == Failure(true)
    ensures ParseValue([NUL], depth) == Failure(false) && ParseItems(y, depth) == Failure(false)
  {
    hide ParseMembers, ParseKey, ParseItems, SkipWhitespace, ParseValue;
    SkipsAll(y);
    KeyOverrun(y);
    KeyOverrun([NUL]);
    MembersStep(y, depth);
    MembersStep([NUL], depth);
    ValueByFirstByte([NUL], depth);
    ItemsStep(y, depth);
  }

  lemma {:induction false} ItemsNeed(p: string, x: string, y: string, depth: nat)
    requires Marked(p) && EmptyName(x) && Terminated(y) && Blank(y)
    ensures Terminated(p + x) && Terminated(p + y)
    ensures Needs(ParseItems(p + x, depth), x, ParseItems(p + y, depth))
    decreases |p|, 2
  {
    hide ParseItems, ParseValue, SkipWhitespace, Front, Marked, DropBlanks, EndOf;
    if p == "" {
      assert p + x == x;
      NameIsNoItem(x, depth);
    } else {
      ItemsStep(p + x, depth);
      ItemsStep(p + y, depth);
      SkipsWithin(p, x);
      SkipsWithin(p, y);
      var t := DropBlanks(p);
      var r := ParseValue(t + x, depth);
      ValueLeavesEnd(t + x, depth);
      if r.Success? && |r.rest| > |x| {
        ValueWithin(t, x, y, depth);
        NextWithin(r, t, x, ParseValue(t + y, depth), y);
        ItemsNeed(DropBlanks(Front(r.rest, x))[1..], x, y, depth);
      } else {
        ValueNeeds(t, x, y, depth);
        if r.Success? { ClosesOrEnds(t, x, r); }
      }
    }
  }

  /** Nothing follows a value that ends with the first quote of `x` or right in front of it. */
  lemma ClosesOrEnds(t: string, x: string, r: Result<Value>)
    requires Marked(t) && EmptyName(x) && r.Success? && Terminated(r.rest) && |r.rest| <= |x| && EndOf(r.rest, t + x)
    ensures |r.rest| == |x| || r.rest[0] == QUOTE ==> r.rest[0] == QUOTE && SkipWhitespace(r.rest) == r.rest
  {
    if |r.rest| == |x| { Splits(t, x, r.rest); }
  }

  /** In an array a name cannot be followed by its colon. */
  lemma NameIsNoItem(x: string, depth: nat)
    requires EmptyName(x)
    ensures ParseItems(x, depth).Failure?
  {
    hide ParseItems, ParseValue, ParseString, SkipWhitespace;
    ItemsStep(x, depth);
    ValueByFirstByte(x, depth);
    EmptyNameParses(x);
  }

  lemma EmptyNameParses(x: string)
    requires EmptyName(x)
    ensures Terminated(x[2..]) && Terminated(x[3..])
    ensures SkipWhitespace(x) == x && SkipWhitespace(x[2..]) == x[2..]
    ensures ParseString(x) == Success("", x[2..])
    ensures ParseKey(x) == Success("", SkipWhitespace(x[3..]))
  {
    assert FindClose(x[1..]) == Some(0);
    assert Unescape(x[1..], 0) == Some("");
    assert x[2..][1..] == x[3..];
  }

  lemma {:induction false} MembersNeed(p: string, x: string, y: string, depth: nat)
    requires Marked(p) && EmptyName(x) && Terminated(y) && Blank(y)
    ensures Terminated(p + x) && Terminated(p + y)
    ensures Needs(ParseMembers(p + x, depth), x, ParseMembers(p + y, depth))
    decreases |p|, 2
  {
    hide ParseMembers, ParseKey, ParseValue, SkipWhitespace, Front, Marked, DropBlanks, EndOf;
    if p == "" {
      assert p + y == y && p + x == x;
      OnlyBlanksLeft(y, depth);
    } else {
      MembersStep(p + x, depth);
      MembersStep(p + y, depth);
      KeyInFront(p, x);
      KeyWithin(p, x, y);
      KeyLeavesEnd(p + x);
      var k := ParseKey(p + x);
      if k.Success? {
        NextWithin(k, p, x, ParseKey(p + y), y);
        var t := Front(k.rest, x);
        var r := ParseValue(t + x, depth);
        ValueLeavesEnd(t + x, depth);
        if r.Success? && |r.rest| > |x| {
          ValueWithin(t, x, y, depth);
          NextWithin(r, t, x, ParseValue(t + y, depth), y);
          MembersNeed(DropBlanks(Front(r.rest, x))[1..], x, y, depth);
        } else {
          ValueNeeds(t, x, y, depth);
          if r.Success? { ClosesOrEnds(t, x, r); }
        }
      }
    }
  }

  // ---- Completing a document at its mark ----------------------------------------------------

  const MEMBER: string := [QUOTE, QUOTE, ':', '0']

  /** A member, the brackets `close`, and then `z`. */
  function Filled(close: string, z: string): (x: string)
    requires Terminated(z)
    ensures EmptyName(x)
  {
    MEMBER + (close + z)
  }

  predicate Closing(close: string) {
    forall i :: 0 <= i < |close| ==> close[i] == ']' || close[i] == '}'
  }

  predicate EndsAt<T>(r: Result<T>, z: string) {
    r.Success? && r.rest == z
  }

  /** The brackets of the inner value, and one more. */
  lemma OneMore(close: string, bracket: char, z: string)
    requires Terminated(z) && (bracket == ']' || bracket == '}')
    ensures Terminated([bracket] + z)
    ensures Filled(close + [bracket], z) == Filled(close, [bracket] + z)
    ensures SkipWhitespace([bracket] + z) == [bracket] + z && ([bracket] + z)[1..] == z
  {
    assert (close + [bracket]) + z == close + ([bracket] + z);
  }

  /** The innermost object takes the member. */
  lemma MemberParses(z: string, depth: nat)
    requires Terminated(z)
    ensures EndsAt(ParseMembers(Filled("}", z), depth), z)
  {
    hide ParseMembers, ParseKey, ParseValue, Filled, ParseNumber, SkipWhitespace;
    var x, s := Filled("}", z), ['0', '}'] + z;
    BehindName(z);
    ZeroParses(s, z);
    ValueByFirstByte(s, depth);
    OneMore("", '}', z);
    MembersStep(x, depth);
  }

  lemma BehindName(z: string)
    requires Terminated(z)
    ensures ParseKey(Filled("}", z)) == Success("", SkipWhitespace(['0', '}'] + z))
  {
    hide ParseKey, SkipWhitespace;
    EmptyNameParses(Filled("}", z));
    assert Filled("}", z)[3..] == ['0', '}'] + z;
  }

  lemma ZeroParses(s: string, z: string)
    requires Terminated(z) && s == ['0', '}'] + z
    ensures Terminated(s) && SkipWhitespace(s) == s
    ensures EndsAt(ParseNumber(s), ['}'] + z)
  {
    assert s[1..][0] == '}';
    assert NumberText(s, 63) == ['0'];
    assert DigitsEnd(['0'], 1) == 1 && DigitsEnd(['0'], 0) == 1;
    assert ['0'][0..1] + ['0'][1..1] == ['0'];
    assert s[1..] == ['}'] + z;
  }

  /** What is left is blank when nothing in front of the mark is left. */
  lemma BlankEnd(t: string, y: string, rest: string)
    requires Terminated(y) && Blank(y) && Terminated(rest) && EndOf(rest, t + y) && |rest| <= |y|
    ensures SkipWhitespace(rest) == [NUL]
  {
    assert rest == y[|y| - |rest|..];
    SkipsAll(rest);
  }

  // Each form of a value, once what it contains has been completed.

  lemma ArrayFilled(p: string, x: string, z: string, depth: nat)
    requires p != "" && p[0] == '[' && depth < NESTING_LIMIT && Terminated(x)
    requires EndsAt(ItemsThroughEnd(SkipWhitespace(p[1..] + x), depth + 1), z)
    ensures EndsAt(ParseValue(p + x, depth), z)
  {
    hide ParseValue, ParseArray, ItemsThroughEnd, SkipWhitespace;
    assert (p + x)[0] == p[0] && (p + x)[1..] == p[1..] + x;
    ValueByFirstByte(p + x, depth);
    ArrayStep(p + x, depth);
  }

  lemma ObjectFilled(p: string, x: string, z: string, depth: nat)
    requires p != "" && p[0] == '{' && depth < NESTING_LIMIT && Terminated(x)
    requires EndsAt(MembersThroughEnd(SkipWhitespace(p[1..] + x), depth + 1), z)
    ensures EndsAt(ParseValue(p + x, depth), z)
  {
    hide ParseValue, ParseObject, MembersThroughEnd, SkipWhitespace;
    assert (p + x)[0] == p[0] && (p + x)[1..] == p[1..] + x;
    ValueByFirstByte(p + x, depth);
    ObjectStep(p + x, depth);
  }

  lemma LastItemFilled(p: string, x: string, z: string, depth: nat)
    requires Marked(p) && p != "" && Terminated(x) && Terminated(z)
    requires EndsAt(ParseValue(DropBlanks(p) + x, depth), [']'] + z)
    ensures EndsAt(ParseItems(p + x, depth), z)
  {
    hide ParseItems, ParseValue;
    OneMore("", ']', z);
    SkipsWithin(p, x);
    ItemsStep(p + x, depth);
  }

  lemma LastMemberFilled(p: string, x: string, z: string, depth: nat)
    requires Terminated(x) && Terminated(z) && Terminated(p + x) && ParseKey(p + x).Success?
    requires EndsAt(ParseValue(ParseKey(p + x).rest, depth), ['}'] + z)
    ensures EndsAt(ParseMembers(p + x, depth), z)
  {
    hide ParseMembers, ParseKey, ParseValue;
    OneMore("", '}', z);
    MembersStep(p + x, depth);
  }

  lemma FirstItemFilled(s: string, t: string, z: string, depth: nat)
    requires Terminated(s) && Terminated(t) && ParseValue(SkipWhitespace(s), depth).Success?
    requires SkipWhitespace(ParseValue(SkipWhitespace(s), depth).rest) == t && t[0] == ','
    requires EndsAt(ParseItems(t[1..], depth), z)
    ensures EndsAt(ParseItems(s, depth), z)
  {
    hide ParseItems, ParseValue, SkipWhitespace;
    ItemsStep(s, depth);
  }

  lemma FirstMemberFilled(p: string, x: string, q: string, z: string, depth: nat)
    requires Terminated(x) && Terminated(z) && q != "" && q[0] == ',' && Terminated(p + x) && ParseKey(p + x).Success?
    requires var r := ParseValue(ParseKey(p + x).rest, depth); r.Success? && SkipWhitespace(r.rest) == q + x
    requires EndsAt(ParseMembers(q[1..] + x, depth), z)
    ensures EndsAt(ParseMembers(p + x, depth), z)
  {
    hide ParseMembers, ParseKey, ParseValue, SkipWhitespace;
    MembersStep(p + x, depth);
    assert (q + x)[1..] == q[1..] + x;
  }

  /** The part of `s` in front of `y`. */
  function Before(s: string, y: string): string {
    if |y| <= |s| then s[..|s| - |y|] else ""
  }

  lemma BeforeIs(q: string, y: string)
    ensures Before(q + y, y) == q
    ensures q != "" ==> (q + y)[1..] == q[1..] + y && (q + y)[0] == q[0]
  {}

  /** A value in front of the mark and the byte behind it: the same with `x` in place of the blanks. */
  lemma ValueInFront(t: string, y: string, x: string, q: string, depth: nat)
    requires Marked(t) && t != "" && Terminated(y) && Blank(y) && Terminated(x) && Terminated(t + y)
    requires ParseValue(t + y, depth).Success? && SkipWhitespace(ParseValue(t + y, depth).rest) != [NUL]
    requires q == Before(SkipWhitespace(ParseValue(t + y, depth).rest), y)
    ensures 0 < |q| <= |t| && Marked(q[1..])
    ensures SkipWhitespace(ParseValue(t + y, depth).rest) == q + y
    ensures Terminated(t + x) && ParseValue(t + x, depth).Success?
    ensures SkipWhitespace(ParseValue(t + x, depth).rest) == q + x
  {
    hide ParseValue, SkipWhitespace, Front, Marked, DropBlanks, EndOf;
    var r := ParseValue(t + y, depth);
    ValueLeavesEnd(t + y, depth);
    if |r.rest| <= |y| { BlankEnd(t, y, r.rest); }
    ValueWithin(t, y, x, depth);
    NextWithin(r, t, y, ParseValue(t + x, depth), x);
    BeforeIs(DropBlanks(Front(r.rest, y)), y);
  }

  lemma {:induction false} ValueCompleted(p: string, y: string, z: string, depth: nat) returns (close: string)
    requires Marked(p) && p != "" && Terminated(y) && Blank(y) && Terminated(z) && Terminated(p + y)
    requires ParseValue(p + y, depth) == Failure(true)
    ensures Closing(close) && EndsAt(ParseValue(p + Filled(close, z), depth), z)
    decreases |p|, 1
  {
    hide ParseValue, ParseArray, ParseObject, ParseString, ParseConstant, ParseNumber, ItemsThroughEnd, MembersThroughEnd,
      SkipWhitespace, Filled;
    assert (p + y)[0] == p[0] && (p + y)[1..] == p[1..] + y;
    ValueByFirstByte(p + y, depth);
    OnlyInside(p + y);
    if depth >= NESTING_LIMIT {
      TooDeep(p + y, depth);
    } else if p[0] == '[' {
      ArrayStep(p + y, depth);
      close := ArrayCompleted(p[1..], y, z, depth + 1);
      ArrayFilled(p, Filled(close, z), z, depth);
    } else {
      ObjectStep(p + y, depth);
      close := ObjectCompleted(p[1..], y, z, depth + 1);
      ObjectFilled(p, Filled(close, z), z, depth);
    }
  }

  lemma ArrayCompleted(p: string, y: string, z: string, depth: nat) returns (close: string)
    requires Marked(p) && p != "" && Terminated(y) && Blank(y) && Terminated(z) && Terminated(p + y)
    requires ItemsThroughEnd(SkipWhitespace(p + y), depth) == Failure(true)
    ensures Closing(close) && EndsAt(ItemsThroughEnd(SkipWhitespace(p + Filled(close, z)), depth), z)
    decreases |p|, 4
  {
    hide ParseItems, SkipWhitespace, Filled;
    SkipsWithin(p, y);
    close := ItemsCompleted(DropBlanks(p), y, z, depth);
    SkipsWithin(p, Filled(close, z));
  }

  lemma InEmptyObject(z: string, depth: nat)
    requires Terminated(z)
    ensures Closing("}")
    ensures EndsAt(ParseMembers("" + Filled("}", z), depth), z)
    ensures EndsAt(MembersThroughEnd(SkipWhitespace("" + Filled("}", z)), depth), z)
  {
    hide ParseMembers, SkipWhitespace, Filled;
    assert "" + Filled("}", z) == Filled("}", z);
    EmptyNameParses(Filled("}", z));
    MemberParses(z, depth);
  }

  lemma ObjectCompleted(p: string, y: string, z: string, depth: nat) returns (close: string)
    requires Marked(p) && Terminated(y) && Blank(y) && Terminated(z) && Terminated(p + y)
    requires MembersThroughEnd(SkipWhitespace(p + y), depth) == Failure(true)
    ensures Closing(close) && EndsAt(MembersThroughEnd(SkipWhitespace(p + Filled(close, z)), depth), z)
    decreases |p|, 4
  {
    hide ParseMembers, SkipWhitespace, Filled;
    if p == "" {
      close := "}";
      InEmptyObject(z, depth);
    } else {
      SkipsWithin(p, y);
      close := MembersCompleted(DropBlanks(p), y, z, depth);
      SkipsWithin(p, Filled(close, z));
    }
  }

  lemma {:induction false} ItemsCompleted(p: string, y: string, z: string, depth: nat) returns (close: string)
    requires Marked(p) && Terminated(y) && Blank(y) && Terminated(z) && Terminated(p + y)
    requires ParseItems(p + y, depth) == Failure(true)
    ensures Closing(close) && EndsAt(ParseItems(p + Filled(close, z), depth), z)
    decreases |p|, 2
  {
    hide ParseItems, ParseValue, SkipWhitespace, Marked, DropBlanks, Before, Filled;
    OnlyBlanksLeft(y, depth);
    assert p == "" ==> p + y == y;
    ItemsStep(p + y, depth);
    SkipsWithin(p, y);
    var t := DropBlanks(p);
    if ParseValue(t + y, depth).Failure? {
      var inner := ValueCompleted(t, y, [']'] + z, depth);
      close := inner + [']'];
      OneMore(inner, ']', z);
      LastItemFilled(p, Filled(close, z), z, depth);
    } else {
      var q := Before(SkipWhitespace(ParseValue(t + y, depth).rest), y);
      ValueInFront(t, y, y, q, depth);
      BeforeIs(q, y);
      close := ItemsCompleted(q[1..], y, z, depth);
      ValueInFront(t, y, Filled(close, z), q, depth);
      SkipsWithin(p, Filled(close, z));
      BeforeIs(q, Filled(close, z));
      FirstItemFilled(p + Filled(close, z), q + Filled(close, z), z, depth);
    }
  }

  /** A name in front of the mark is read the same with `x` in place of the blanks. */
  lemma KeyInPlace(p: string, y: string, x: string, t: string, depth: nat)
    requires Marked(p) && p != "" && Terminated(y) && Blank(y) && Terminated(x) && Terminated(p + y)
    requires ParseKey(p + y).Success? && ParseValue(ParseKey(p + y).rest, depth) != Failure(false)
    requires t == Before(ParseKey(p + y).rest, y)
    ensures 0 < |t| <= |p| && Marked(t) && ParseKey(p + y).rest == t + y
    ensures Terminated(p + x) && ParseKey(p + x).Success? && ParseKey(p + x).rest == t + x
  {
    hide ParseKey, ParseValue, SkipWhitespace, Front, Marked, DropBlanks, EndOf;
    KeyLeavesEnd(p + y);
    KeyWithin(p, y, x);
    var k := ParseKey(p + y);
    if |k.rest| <= |y| { BlankValue(p, y, k.rest, depth); }
    NextWithin(k, p, y, ParseKey(p + x), x);
    BeforeIs(Front(k.rest, y), y);
  }

  lemma {:induction false} MembersCompleted(p: string, y: string, z: string, depth: nat) returns (close: string)
    requires Marked(p) && Terminated(y) && Blank(y) && Terminated(z) && Terminated(p + y)
    requires ParseMembers(p + y, depth) == Failure(true)
    ensures Closing(close) && EndsAt(ParseMembers(p + Filled(close, z), depth), z)
    decreases |p|, 2
  {
    hide ParseMembers, ParseKey, ParseValue, SkipWhitespace, Marked, DropBlanks, Before, Filled;
    if p == "" {
      close := "}";
      InEmptyObject(z, depth);
      return;
    }
    MembersStep(p + y, depth);
    KeyNotMissing(p, y);
    var t := Before(ParseKey(p + y).rest, y);
    KeyInPlace(p, y, y, t, depth);
    if ParseValue(t + y, depth).Failure? {
      var inner := ValueCompleted(t, y, ['}'] + z, depth);
      close := inner + ['}'];
      OneMore(inner, '}', z);
      KeyInPlace(p, y, Filled(close, z), t, depth);
      LastMemberFilled(p, Filled(close, z), z, depth);
    } else {
      var q := Before(SkipWhitespace(ParseValue(t + y, depth).rest), y);
      ValueInFront(t, y, y, q, depth);
      BeforeIs(q, y);
      close := MembersCompleted(q[1..], y, z, depth);
      KeyInPlace(p, y, Filled(close, z), t, depth);
      ValueInFront(t, y, Filled(close, z), q, depth);
      FirstMemberFilled(p, Filled(close, z), q, z, depth);
    }
  }

  lemma KeyNotMissing(p: string, y: string)
    requires Marked(p) && p != "" && Terminated(p + y)
    ensures ParseKey(p + y) != Failure(true)
  {
    KeyOverrun(p + y);
    assert (p + y)[|p| - 1] == p[|p| - 1] > ' ';
  }

  /** There is no value in blanks. */
  lemma BlankValue(p: string, y: string, rest: string, depth: nat)
    requires Terminated(y) && Blank(y) && Terminated(rest) && EndOf(rest, p + y) && |rest| <= |y|
    ensures ParseValue(rest, depth) == Failure(false)
  {
    hide ParseValue;
    assert rest == y[|y| - |rest|..];
    ValueByFirstByte(rest, depth);
  }

  // ---- The exact condition ------------------------------------------------------------------

  /** The input stops where a name is due: a member and closing brackets there make it a document. */
  ghost predicate StopsBeforeName(s: string, depth: nat) {
    && EndsMarked(s)
    && exists close :: Closing(close) && EndsAt(ParseValue(Trim(s) + Filled(close, [NUL]), depth), [NUL])
  }

  lemma OverrunExactly(s: string, depth: nat)
    requires Terminated(s)
    ensures ParseValue(s, depth) == Failure(true) <==> StopsBeforeName(s, depth)
  {
    hide ParseValue, Trim, Filled;
    var p, y := Trim(s), s[|Trim(s)|..];
    assert s == p + y;
    if ParseValue(s, depth) == Failure(true) {
      OverrunAtMark(s, depth);
      var close := ValueCompleted(p, y, [NUL], depth);
      assert EndsAt(ParseValue(p + Filled(close, [NUL]), depth), [NUL]);
    }
    if StopsBeforeName(s, depth) {
      var close :| Closing(close) && EndsAt(ParseValue(p + Filled(close, [NUL]), depth), [NUL]);
      ValueNeeds(p, Filled(close, [NUL]), y, depth);
    }
  }
}

/**
 When a failing parse leaves its cursor one position behind the final NUL: exactly when the input is
 a document cut off where the name of a member should follow.
 */
module Overrun {
  import opened CString
  import opened Digits
  import opened Json
  import opened Render
  import opened Parse
  import opened RoundTrip

  // ---- Ends of the input --------------------------------------------------------------------

  predicate EndOf(t: string, s: string) {
    |t| <= |s| && t == s[|s| - |t|..]
  }

  lemma EndOfEnd(a: string, b: string, c: string)
    requires EndOf(a, b) && EndOf(b, c)
    ensures EndOf(a, c)
  {
    assert c[|c| - |b|..][|b| - |a|..] == c[|c| - |a|..];
  }

  lemma {:induction false} SkipLeavesEnd(s: string)
    requires Terminated(s)
    ensures EndOf(SkipWhitespace(s), s)
  {
    if !(|s| == 1 || s[0] > ' ') {
      SkipLeavesEnd(s[1..]);
      EndOfEnd(SkipWhitespace(s), s[1..], s);
    }
  }

  /** Blanks and one more byte. */
  lemma PastMark(t: string, s: string)
    requires Terminated(t) && EndOf(t, s)
    ensures EndOf(SkipWhitespace(t), s) && EndOf(SkipWhitespace(t)[1..], s)
  {
    SkipLeavesEnd(t);
    EndOfEnd(SkipWhitespace(t), t, s);
    EndOfEnd(SkipWhitespace(t)[1..], SkipWhitespace(t), s);
  }

  predicate LeavesEnd<T>(r: Result<T>, s: string) {
    r.Success? ==> EndOf(r.rest, s)
  }

  lemma StringLeavesEnd(s: string)
    requires Terminated(s)
    ensures LeavesEnd(ParseString(s), s)
  {
    hide FindClose, Unescape, UpToNul;
  }

  lemma KeyLeavesEnd(s: string)
    requires Terminated(s)
    ensures LeavesEnd(ParseKey(s), s)
  {
    hide ParseString, SkipWhitespace;
    var r := ParseString(SkipWhitespace(s));
    if r.Success? {
      SkipLeavesEnd(s);
      StringLeavesEnd(SkipWhitespace(s));
      EndOfEnd(r.rest, SkipWhitespace(s), s);
      PastMark(r.rest, s);
      var colon := SkipWhitespace(r.rest);
      if colon[0] == ':' {
        SkipLeavesEnd(colon[1..]);
        EndOfEnd(SkipWhitespace(colon[1..]), colon[1..], s);
      }
    }
  }

  lemma {:induction false} ValueLeavesEnd(s: string, depth: nat)
    requires Terminated(s)
    ensures LeavesEnd(ParseValue(s, depth), s)
    decreases |s|, 1
  {
    hide ParseValue, ParseArray, ParseObject, ParseString, ParseConstant, ParseNumber, ItemsThroughEnd, MembersThroughEnd,
      SkipWhitespace;
    StringLeavesEnd(s);
    ValueByFirstByte(s, depth);
    if depth >= NESTING_LIMIT {
      TooDeep(s, depth);
    } else if s[0] == '[' {
      ArrayStep(s, depth);
      PastMark(s[1..], s);
      ItemsEndLeavesEnd(SkipWhitespace(s[1..]), s, depth + 1);
    } else if s[0] == '{' {
      ObjectStep(s, depth);
      PastMark(s[1..], s);
      MembersEndLeavesEnd(SkipWhitespace(s[1..]), s, depth + 1);
    }
    if s[0] != '[' && s[0] != '{' {
      SimpleLeavesEnd(s);
    }
  }

  /** Constants and numbers. */
  lemma SimpleLeavesEnd(s: string)
    requires Terminated(s)
    ensures LeavesEnd(ParseConstant(s), s) && LeavesEnd(ParseNumber(s), s)
  {
    hide StringToDouble, NumberText;
  }

  lemma ItemsEndLeavesEnd(t: string, s: string, depth: nat)
    requires Terminated(t) && EndOf(t, s) && |t| < |s|
    ensures LeavesEnd(ItemsThroughEnd(t, depth), s)
    decreases |t|, 3
  {
    hide ParseItems;
    ItemsLeaveEnd(t, depth);
    InnerEnd(ItemsThroughEnd(t, depth), t, s);
  }

  lemma MembersEndLeavesEnd(t: string, s: string, depth: nat)
    requires Terminated(t) && EndOf(t, s) && |t| < |s|
    ensures LeavesEnd(MembersThroughEnd(t, depth), s)
    decreases |t|, 3
  {
    hide ParseMembers;
    MembersLeaveEnd(t, depth);
    InnerEnd(MembersThroughEnd(t, depth), t, s);
  }

  lemma InnerEnd<T>(r: Result<T>, t: string, s: string)
    requires LeavesEnd(r, t) && EndOf(t, s)
    ensures LeavesEnd(r, s)
  {
    if r.Success? { EndOfEnd(r.rest, t, s); }
  }

  lemma {:induction false} ItemsLeaveEnd(s: string, depth: nat)
    requires Terminated(s)
    ensures LeavesEnd(ParseItems(s, depth), s)
    decreases |s|, 2
  {
    hide ParseItems, ParseValue, SkipWhitespace;
    ItemsStep(s, depth);
    var r := ParseValue(SkipWhitespace(s), depth);
    if r.Success? {
      SkipLeavesEnd(s);
      ValueLeavesEnd(SkipWhitespace(s), depth);
      EndOfEnd(r.rest, SkipWhitespace(s), s);
      PastMark(r.rest, s);
      var t := SkipWhitespace(r.rest);
      if t[0] == ',' {
        ItemsLeaveEnd(t[1..], depth);
        InnerEnd(ParseItems(t[1..], depth), t[1..], s);
      }
    }
  }

  lemma {:induction false} MembersLeaveEnd(s: string, depth: nat)
    requires Terminated(s)
    ensures LeavesEnd(ParseMembers(s, depth), s)
    decreases |s|, 2
  {
    hide ParseMembers, ParseKey, ParseValue, SkipWhitespace;
    MembersStep(s, depth);
    KeyLeavesEnd(s);
    var k := ParseKey(s);
    if k.Success? && ParseValue(k.rest, depth).Success? {
      var r := ParseValue(k.rest, depth);
      ValueLeavesEnd(k.rest, depth);
      EndOfEnd(r.rest, k.rest, s);
      PastMark(r.rest, s);
      var t := SkipWhitespace(r.rest);
      if t[0] == ',' {
        MembersLeaveEnd(t[1..], depth);
        InnerEnd(ParseMembers(t[1..], depth), t[1..], s);
      }
    }
  }

  // ---- The last byte that is no blank -------------------------------------------------------

  /** The input without the blanks, and the NUL, at its end. */
  function Trim(s: string): (r: string)
    ensures r <= s && Blank(s[|r|..])
    ensures r == "" || r[|r| - 1] > ' '
  {
    if s == "" || s[|s| - 1] > ' ' then s else Trim(s[..|s| - 1])
  }

  /** Behind a brace that opens an object, or behind a comma; or nothing at all. */
  predicate Marked(p: string) {
    p == "" || p[|p| - 1] == '{' || p[|p| - 1] == ','
  }

  /** The last byte above 32 is an opening brace or a comma. */
  predicate EndsMarked(s: string) {
    Trim(s) != "" && Marked(Trim(s))
  }

  lemma {:induction false} TrimOfEnd(t: string, s: string)
    requires EndOf(t, s)
    ensures EndsMarked(t) ==> EndsMarked(s)
    decreases |t|
  {
    if t != "" && t[|t| - 1] <= ' ' {
      assert t[..|t| - 1] == s[..|s| - 1][|s| - |t|..];
      TrimOfEnd(t[..|t| - 1], s[..|s| - 1]);
    }
  }

  lemma {:induction false} TrimBehind(p: string, y: string)
    requires Blank(y)
    ensures Trim(p + y) == Trim(p)
    decreases |y|
  {
    if y == "" {
      assert p + y == p;
    } else {
      assert (p + y)[..|p + y| - 1] == p + y[..|y| - 1];
      TrimBehind(p, y[..|y| - 1]);
    }
  }

  /** A comma with nothing but blanks behind it. */
  lemma MarkBeforeBlanks(s: string)
    requires s != "" && Marked([s[0]]) && Blank(s[1..])
    ensures EndsMarked(s)
  {
    TrimBehind([s[0]], s[1..]);
    assert s == [s[0]] + s[1..];
  }

  lemma {:induction false} SkipsAll(s: string)
    requires Terminated(s)
    ensures Blank(s) <==> SkipWhitespace(s) == [NUL]
  {
    if |s| > 1 && s[0] <= ' ' {
      SkipsAll(s[1..]);
      assert Blank(s[1..]) ==> Blank(s);
      assert Blank(s) ==> Blank(s[1..]);
    } else if |s| == 1 {
      assert s == [NUL];
    }
  }

  /** Only a name looked for in nothing but blanks moves the cursor behind the end. */
  lemma KeyOverrun(s: string)
    requires Terminated(s)
    ensures ParseKey(s) == Failure(true) <==> Blank(s)
  {
    hide SkipWhitespace, FindClose, Unescape, UpToNul;
    SkipsAll(s);
    var t := SkipWhitespace(s);
    if |t| == 1 { assert t == [NUL]; }
  }

  lemma {:induction false} OverrunAtMark(s: string, depth: nat)
    requires Terminated(s) && ParseValue(s, depth) == Failure(true)
    ensures EndsMarked(s)
    decreases |s|, 1
  {
    hide ParseValue, ParseArray, ParseObject, ParseString, ParseConstant, ParseNumber, ItemsThroughEnd, MembersThroughEnd,
      SkipWhitespace, EndsMarked;
    ValueByFirstByte(s, depth);
    OnlyInside(s);
    if depth >= NESTING_LIMIT {
      TooDeep(s, depth);
    } else if s[0] == '[' {
      ArrayStep(s, depth);
      PastMark(s[1..], s);
      OverrunInArray(SkipWhitespace(s[1..]), depth + 1);
      TrimOfEnd(SkipWhitespace(s[1..]), s);
    } else {
      ObjectStep(s, depth);
      PastMark(s[1..], s);
      OverrunInObject(SkipWhitespace(s[1..]), depth + 1);
      TrimOfEnd(SkipWhitespace(s[1..]), s);
      if Blank(SkipWhitespace(s[1..])) {
        BlankAgain(s[1..]);
        MarkBeforeBlanks(s);
      }
    }
  }

  lemma OnlyInside(s: string)
    requires Terminated(s)
    ensures ParseConstant(s) != Failure(true) && ParseNumber(s) != Failure(true)
    ensures s[0] == QUOTE ==> ParseString(s) != Failure(true)
  {
    hide StringToDouble, NumberText, FindClose, Unescape, UpToNul;
  }

  lemma OverrunInArray(t: string, depth: nat)
    requires Terminated(t) && ItemsThroughEnd(t, depth) == Failure(true)
    ensures EndsMarked(t)
    decreases |t|, 3
  {
    hide ParseItems;
    OverrunInItems(t, depth);
  }

  lemma OverrunInObject(t: string, depth: nat)
    requires Terminated(t) && MembersThroughEnd(t, depth) == Failure(true)
    ensures Blank(t) || EndsMarked(t)
    decreases |t|, 3
  {
    hide ParseMembers;
    OverrunInMembers(t, depth);
  }

  lemma BlankAgain(s: string)
    requires Terminated(s) && Blank(SkipWhitespace(s))
    ensures Blank(s)
  {
    SkipsAll(s);
    assert SkipWhitespace(s)[0] <= ' ';
  }

  lemma {:induction false} OverrunInItems(s: string, depth: nat)
    requires Terminated(s) && ParseItems(s, depth) == Failure(true)
    ensures EndsMarked(s)
    decreases |s|, 2
  {
    hide ParseItems, ParseValue, SkipWhitespace, Trim;
    ItemsStep(s, depth);
    SkipLeavesEnd(s);
    var r := ParseValue(SkipWhitespace(s), depth);
    if r.Failure? {
      OverrunAtMark(SkipWhitespace(s), depth);
      TrimOfEnd(SkipWhitespace(s), s);
    } else {
      ValueLeavesEnd(SkipWhitespace(s), depth);
      EndOfEnd(r.rest, SkipWhitespace(s), s);
      PastMark(r.rest, s);
      var t := SkipWhitespace(r.rest);
      OverrunInItems(t[1..], depth);
      TrimOfEnd(t[1..], s);
    }
  }

  lemma {:induction false} OverrunInMembers(s: string, depth: nat)
    requires Terminated(s) && ParseMembers(s, depth) == Failure(true)
    ensures Blank(s) || EndsMarked(s)
    decreases |s|, 2
  {
    hide ParseMembers, ParseKey, ParseValue, SkipWhitespace, Trim;
    MembersStep(s, depth);
    KeyOverrun(s);
    KeyLeavesEnd(s);
    var k := ParseKey(s);
    if k.Success? {
      var r := ParseValue(k.rest, depth);
      if r.Failure? {
        OverrunAtMark(k.rest, depth);
        TrimOfEnd(k.rest, s);
      } else {
        ValueLeavesEnd(k.rest, depth);
        EndOfEnd(r.rest, k.rest, s);
        PastMark(r.rest, s);
        var t := SkipWhitespace(r.rest);
        OverrunInMembers(t[1..], depth);
        TrimOfEnd(t[1..], s);
        TrimOfEnd(t, s);
        if Blank(t[1..]) { MarkBeforeBlanks(t); }
      }
    }
  }
}

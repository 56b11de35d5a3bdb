/**
 The layout of formatted text: a rule that puts the blanks into unformatted text, byte by byte, knowing
 nothing but the brackets that are open.
 */
module Layout {
  import opened CString
  import opened Digits
  import opened Json
  import opened MinifyRender
  import opened Render
  import Parse
  import RoundTrip

  /** A byte outside literals, with its blanks; `open` holds the brackets open there, the innermost last. */
  function Shown(c: char, open: string): string {
    if c == '{' then "{\n" + Tabs(|open| + 1)
    else if c == '}' && open != "" then "\n" + Tabs(|open| - 1) + "}"
    else if c == ':' then ":\t"
    else if c == ',' && open != "" && open[|open| - 1] == '{' then ",\n" + Tabs(|open|)
    else if c == ',' then ", "
    else [c]
  }

  /** The brackets open behind it. */
  function Within(c: char, open: string): string {
    if c == '{' || c == '[' then open + [c]
    else if (c == '}' || c == ']') && open != "" then open[..|open| - 1]
    else open
  }

  /**
   Every member is on a line of its own, behind a tab for each bracket open there, and so is the closing
   brace. Otherwise there is one blank behind a comma, and one tab behind a colon. Literals stay as they are.
   */
  function LaidOut(s: string, open: string): string {
    if s == "" then ""
    else if s[0] == QUOTE then
      match Parse.FindClose(s[1..])
      case None => s
      case Some(n) => s[..n + 2] + LaidOut(s[n + 2..], open)
    else if |s| > 1 && s[0] == '{' && s[1] == '}' then
      "{\n" + Tabs(|open|) + "}" + LaidOut(s[2..], open)
    else
      Shown(s[0], open) + LaidOut(s[1..], Within(s[0], open))
  }

  // ---- Pieces -------------------------------------------------------------------------------

  predicate EmptyBraces(c: char, rest: string) {
    c == '{' && rest != "" && rest[0] == '}'
  }

  lemma ByteLaid(c: char, rest: string, open: string)
    requires c != QUOTE && !EmptyBraces(c, rest)
    ensures LaidOut([c] + rest, open) == Shown(c, open) + LaidOut(rest, Within(c, open))
  {
    hide Shown, Within, Tabs;
    assert ([c] + rest)[1..] == rest;
  }

  lemma BracesLaid(rest: string, open: string)
    ensures LaidOut("{}" + rest, open) == "{\n" + Tabs(|open|) + "}" + LaidOut(rest, open)
  {
    var s := "{}" + rest;
    assert |s| > 1 && s[0] == '{' && s[1] == '}' && s[2..] == rest;
    hide Shown, Within, Tabs;
  }

  lemma LiteralLaid(t: string, rest: string, open: string)
    ensures LaidOut(RenderString(t) + rest, open) == RenderString(t) + LaidOut(rest, open)
  {
    var e := Escape(t);
    var s := RenderString(t) + rest;
    RoundTrip.ClosesAtQuote(t, rest);
    hide Parse.FindClose, Escape;
    assert s[1..] == e + ([QUOTE] + rest);
    assert s[..|e| + 2] == RenderString(t) && s[|e| + 2..] == rest;
  }

  predicate Neutral(c: char) {
    c != QUOTE && c != '{' && c != '}' && c != '[' && c != ']' && c != ',' && c != ':'
  }

  lemma {:induction false} WordLaid(w: string, rest: string, open: string)
    requires forall i :: 0 <= i < |w| ==> Neutral(w[i])
    ensures LaidOut(w + rest, open) == w + LaidOut(rest, open)
  {
    if w == "" {
      assert w + rest == rest;
      assert w + LaidOut(rest, open) == LaidOut(rest, open);
    } else {
      var c, more := w[0], w[1..];
      assert Neutral(c);
      WordLaid(more, rest, open);
      ByteLaid(c, more + rest, open);
      hide LaidOut;
      assert w == [c] + more;
      Associative([c], more, rest);
      Associative([c], more, LaidOut(rest, open));
    }
  }

  lemma NumberNeutral(num: real)
    ensures forall i :: 0 <= i < |RenderNumber(num)| ==> Neutral(RenderNumber(num)[i])
  {
    var digits := Decimal(if num.Floor < 0 then -num.Floor else num.Floor);
    assert forall i :: 0 <= i < |digits| ==> IsDigit(digits[i]);
  }

  // ---- Values -------------------------------------------------------------------------------

  /** Printing unformatted and laying the text out is printing formatted. */
  lemma {:induction false} ValueLaid(v: Value, rest: string, open: string)
    requires Printable(v)
    ensures LaidOut(RenderValue(v, false, |open|) + rest, open) == RenderValue(v, true, |open|) + LaidOut(rest, open)
    decreases v, 0
  {
    hide LaidOut;
    match v
    case Null => WordLaid("null", rest, open);
    case False => WordLaid("false", rest, open);
    case True => WordLaid("true", rest, open);
    case Number(num) =>
      NumberNeutral(num);
      WordLaid(RenderNumber(num), rest, open);
    case String(text) => LiteralLaid(text, rest, open);
    case Array(items) => ArrayLaid(items, rest, open);
    case Object(members) => ObjectLaid(members, rest, open);
  }

  lemma Closes(c: char, open: string, close: char)
    requires (c == '{' && close == '}') || (c == '[' && close == ']')
    ensures Within(close, open + [c]) == open
    ensures Shown(']', open + [c]) == "]" && Shown('}', open + [c]) == "\n" + Tabs(|open|) + "}"
  {
    assert (open + [c])[..|open|] == open;
  }

  lemma {:induction false} ArrayLaid(items: seq<Value>, rest: string, open: string)
    requires forall i :: 0 <= i < |items| ==> Printable(items[i])
    ensures LaidOut(RenderValue(Array(items), false, |open|) + rest, open)
         == RenderValue(Array(items), true, |open|) + LaidOut(rest, open)
    decreases items, 2
  {
    var n, inner := |open|, open + ['['];
    hide LaidOut, RenderValue, RenderItems, Shown, Within;
    ArrayText(items, false, n, rest);
    ArrayText(items, true, n, LaidOut(rest, open));
    ByteLaid('[', RenderItems(items, false, n + 1) + ("]" + rest), open);
    OpensArray(open);
    Closes('[', open, ']');
    ByteLaid(']', rest, inner);
    if items == [] {
      NoItemsText(n + 1, "]" + rest);
      NoItemsText(n + 1, "]" + LaidOut(rest, open));
    } else {
      ItemsLaid(items, "]" + rest, inner);
    }
  }

  lemma OpensArray(open: string)
    ensures Shown('[', open) == "[" && Within('[', open) == open + ['[']
  {}

  lemma {:induction false} ItemsLaid(items: seq<Value>, rest: string, open: string)
    requires items != [] && forall i :: 0 <= i < |items| ==> Printable(items[i])
    requires open != "" && open[|open| - 1] == '['
    ensures LaidOut(RenderItems(items, false, |open|) + rest, open) == RenderItems(items, true, |open|) + LaidOut(rest, open)
    decreases items, 1
  {
    var n := |open|;
    hide LaidOut, RenderValue, RenderItems, Shown, Within;
    if |items| == 1 {
      OneItem(items, false, n);
      OneItem(items, true, n);
      ValueLaid(items[0], rest, open);
    } else {
      var more := RenderItems(items[1..], false, n) + rest;
      ItemsText(items, false, n, rest);
      ItemsText(items, true, n, LaidOut(rest, open));
      ValueLaid(items[0], "," + more, open);
      CommaInArray(open);
      ByteLaid(',', more, open);
      ItemsLaid(items[1..], rest, open);
    }
  }

  lemma CommaInArray(open: string)
    requires open != "" && open[|open| - 1] == '['
    ensures Shown(',', open) == ", " && Within(',', open) == open
  {}

  lemma {:induction false} ObjectLaid(members: Members, rest: string, open: string)
    requires Printable(Object(members))
    ensures LaidOut(RenderValue(Object(members), false, |open|) + rest, open)
         == RenderValue(Object(members), true, |open|) + LaidOut(rest, open)
    decreases members, 2
  {
    var n, inner := |open|, open + ['{'];
    hide LaidOut, RenderValue, RenderMembers, Shown, Within, CloseText;
    ObjectText(members, false, n, rest);
    ObjectText(members, true, n, LaidOut(rest, open));
    CloseTexts(n);
    var body := RenderMembers(members, false, n + 1) + ("}" + rest);
    if members == [] {
      NoMembers(n + 1, "}" + rest);
      NoMembers(n + 1, CloseText(true, n) + LaidOut(rest, open));
      BracesLaid(rest, open);
      EmptyText(n, rest, LaidOut(rest, open));
    } else {
      MembersStart(members, n + 1, "}" + rest);
      ByteLaid('{', body, open);
      OpensObject(open);
      Associative("{\n", Tabs(n + 1), LaidOut(body, inner));
      MembersLaid(members, rest, inner);
      Closes('{', open, '}');
    }
  }

  lemma CloseTexts(n: nat)
    ensures CloseText(false, n) == "}" && CloseText(true, n) == Tabs(n) + "}"
  {}

  lemma EmptyText(n: nat, rest: string, laid: string)
    ensures "{" + ("}" + rest) == "{}" + rest
    ensures "{\n" + Tabs(n) + "}" + laid == "{\n" + ((Tabs(n) + "}") + laid)
  {}

  lemma MembersStart(members: Members, depth: nat, rest: string)
    requires members != []
    ensures !EmptyBraces('{', RenderMembers(members, false, depth) + rest)
  {
    MembersHead(members, depth, rest);
  }

  lemma OpensObject(open: string)
    ensures Shown('{', open) == "{\n" + Tabs(|open| + 1) && Within('{', open) == open + ['{']
  {}

  /** The innermost brace closed, on its own line, and what follows it. */
  function Closed(rest: string, open: string): string
    requires open != ""
  {
    CloseText(true, |open| - 1) + LaidOut(rest, open[..|open| - 1])
  }

  /** The members and the closing brace; the tabs in front of the first are still to come. */
  lemma {:induction false} MembersLaid(members: Members, rest: string, open: string)
    requires members != [] && Printable(Object(members)) && open != "" && open[|open| - 1] == '{'
    ensures Tabs(|open|) + LaidOut(RenderMembers(members, false, |open|) + ("}" + rest), open)
         == RenderMembers(members, true, |open|) + Closed(rest, open)
    decreases members, 1
  {
    var n := |open|;
    var laid := Closed(rest, open);
    var end := RenderEnd(|members| == 1, false) + (RenderMembers(members[1..], false, n) + ("}" + rest));
    var key, item := members[0].key, members[0].item;
    var value := RenderValue(item, false, n) + end;
    MemberPrintable(members);
    hide LaidOut, RenderValue, RenderMembers, RenderString, RenderEnd, Shown, Within, CloseText, Printable;
    MembersText(members, false, n, "}" + rest);
    MembersText(members, true, n, laid);
    Unindented(RenderString(key) + (":" + value), n);
    LiteralLaid(key, ":" + value, open);
    ColonLaid(value, open);
    ValueLaid(item, end, open);
    EndLaid(members, rest, open);
  }

  lemma MemberPrintable(members: Members)
    requires members != [] && Printable(Object(members))
    ensures Printable(members[0].item) && Printable(Object(members[1..]))
  {}

  lemma Unindented(s: string, n: nat)
    ensures Indent(false, n) + s == s && Indent(true, n) == Tabs(n) && Colon(false) == ":" && Colon(true) == ":\t"
  {}

  lemma ColonLaid(rest: string, open: string)
    ensures LaidOut(":" + rest, open) == ":\t" + LaidOut(rest, open)
  {
    ByteLaid(':', rest, open);
    hide LaidOut;
  }

  /** What follows the value of a member, to the closing brace. */
  lemma {:induction false} EndLaid(members: Members, rest: string, open: string)
    requires members != [] && Printable(Object(members)) && open != "" && open[|open| - 1] == '{'
    ensures LaidOut(RenderEnd(|members| == 1, false) + (RenderMembers(members[1..], false, |open|) + ("}" + rest)), open)
         == RenderEnd(|members| == 1, true) + (RenderMembers(members[1..], true, |open|) + Closed(rest, open))
    decreases members, 0
  {
    var n := |open|;
    var laid := Closed(rest, open);
    Ends();
    MemberPrintable(members);
    hide LaidOut, RenderValue, RenderMembers, RenderEnd, Shown, Within, CloseText, Printable;
    if |members| == 1 {
      NoMembers(n, "}" + rest);
      NoMembers(n, laid);
      LastBrace(rest, open);
      assert "" + ("}" + rest) == "}" + rest;
    } else {
      var more := RenderMembers(members[1..], false, n) + ("}" + rest);
      MembersLaid(members[1..], rest, open);
      CommaLaid(more, open);
    }
  }

  lemma Ends()
    ensures RenderEnd(true, false) == "" && RenderEnd(true, true) == "\n"
    ensures RenderEnd(false, false) == "," && RenderEnd(false, true) == ",\n"
  {}

  lemma CommaLaid(more: string, open: string)
    requires open != "" && open[|open| - 1] == '{'
    ensures LaidOut("," + more, open) == ",\n" + (Tabs(|open|) + LaidOut(more, open))
  {
    ByteLaid(',', more, open);
    hide LaidOut, Tabs;
    Associative(",\n", Tabs(|open|), LaidOut(more, open));
  }

  lemma LastBrace(rest: string, open: string)
    requires open != "" && open[|open| - 1] == '{'
    ensures LaidOut("}" + rest, open) == "\n" + Closed(rest, open)
  {
    var n := |open| - 1;
    ByteLaid('}', rest, open);
    CloseTexts(n);
    hide LaidOut, Tabs, CloseText;
    Associative("\n", Tabs(n), "}");
    Associative("\n", CloseText(true, n), LaidOut(rest, open[..n]));
  }

  /** The formatted text is the unformatted text, laid out. */
  lemma FormattedIsLaidOut(v: Value)
    requires Printable(v)
    ensures RenderValue(v, true, 0) == LaidOut(RenderValue(v, false, 0), "")
  {
    hide RenderValue;
    ValueLaid(v, "", "");
    assert RenderValue(v, false, 0) + "" == RenderValue(v, false, 0);
    assert LaidOut("", "") == "";
  }
}

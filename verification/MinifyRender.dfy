/**
 Minifying the formatted text of a tree: exactly when the result is the unformatted text.

 Inside a literal the minifier takes every backslash in front of a quote for an escaped quote, so a
 literal whose text ends in a backslash does not end for it. From there on it copies blanks, until
 the next quote. No harm is done only when nothing but closing brackets follows.
 */
module MinifyRender {
  import opened CString
  import opened Digits
  import opened Json
  import opened Minify
  import opened Render
  import Parse
  import RoundTrip

  predicate EndsInBackslash(t: string) {
    t != [] && t[|t| - 1] == BACKSLASH
  }

  /**
   No key, and no string that anything but closing brackets follows, ends in a backslash. `last`
   says that only closing brackets follow `v`.
   */
  predicate Survives(v: Value, last: bool) {
    match v
    case String(text) => last || !EndsInBackslash(text)
    case Array(items) => forall i :: 0 <= i < |items| ==> Survives(items[i], last && i == |items| - 1)
    case Object(members) =>
      forall i :: 0 <= i < |members| ==>
        !EndsInBackslash(members[i].key) && Survives(members[i].item, false)
    case _ => true
  }

  /** The two texts differ at a position both have. */
  ghost predicate Diverge(a: string, b: string) {
    exists p :: 0 <= p < |a| && p < |b| && a[p] != b[p]
  }

  lemma DivergeBehind(w: string, a: string, b: string)
    requires Diverge(a, b)
    ensures Diverge(w + a, w + b)
  {
    var p :| 0 <= p < |a| && p < |b| && a[p] != b[p];
    assert (w + a)[|w| + p] == a[p] && (w + b)[|w| + p] == b[p];
  }

  // ---- The minifier on pieces of text -------------------------------------------------------

  /** A character that stands for itself outside literals. */
  predicate Ordinary(c: char) {
    !IsBlank(c) && c != '/' && c != QUOTE
  }

  lemma StandsForItself(s: string)
    requires s != [] && Ordinary(s[0])
    ensures Minified(s) == [s[0]] + Minified(s[1..])
  {}

  lemma {:induction false} Through(w: string, rest: string)
    requires forall i :: 0 <= i < |w| ==> Ordinary(w[i])
    ensures Minified(w + rest) == w + Minified(rest)
  {
    hide Minified;
    if w == [] {
      assert w + rest == rest;
    } else {
      Through(w[1..], rest);
      assert (w + rest)[1..] == w[1..] + rest;
      StandsForItself(w + rest);
      Associative([w[0]], w[1..], Minified(rest));
    }
  }

  lemma {:induction false} Over(w: string, rest: string)
    requires forall i :: 0 <= i < |w| ==> IsBlank(w[i])
    ensures Minified(w + rest) == Minified(rest)
  {
    if w == [] {
      assert w + rest == rest;
    } else {
      Over(w[1..], rest);
      assert (w + rest)[1..] == w[1..] + rest;
    }
  }

  lemma InStringIs(s: string)
    ensures InString(s) == s[..StringLength(s)] + Minified(s[StringLength(s)..])
  {
    if s == [] { assert Minified([]) == []; }
  }

  /** Cutting a text in two places. */
  lemma Cut(s: string, i: nat, j: nat, rest: string)
    requires i + j <= |s|
    ensures s[..i + j] + rest == s[..i] + (s[i..][..j] + rest)
  {
    assert s[..i + j] == s[..i] + s[i..][..j];
  }

  lemma CutTail(s: string, i: nat, j: nat)
    requires i + j <= |s|
    ensures s[i + j..] == s[i..][j..]
  {}

  /** The minifier takes a literal in pieces. */
  lemma InStringPiece(s: string, step: nat, t: string)
    requires 0 < step <= |s| && t == s[step..]
    requires StringLength(s) == step + StringLength(t)
    ensures InString(s) == s[..step] + InString(t)
  {
    hide *;
    var k := StringLength(t);
    var tail := t[k..];
    InStringIs(t);
    assert InString(s) == s[..step + k] + Minified(tail) by {
      InStringIs(s);
      CutTail(s, step, k);
    }
    Cut(s, step, k, Minified(tail));
  }

  /** One step inside a literal. */
  lemma InStringStep(s: string)
    requires s != []
    ensures s[0] == QUOTE ==> InString(s) == [QUOTE] + Minified(s[1..])
    ensures s[0] == BACKSLASH && |s| > 1 && s[1] == QUOTE ==> InString(s) == [BACKSLASH, QUOTE] + InString(s[2..])
    ensures s[0] != QUOTE && !(s[0] == BACKSLASH && |s| > 1 && s[1] == QUOTE)
            ==> InString(s) == [s[0]] + InString(s[1..])
  {
    if s[0] == QUOTE {
      assert s[..1] == [QUOTE];
    } else {
      var step := if s[0] == BACKSLASH && |s| > 1 && s[1] == QUOTE then 2 else 1;
      InStringPiece(s, step, s[step..]);
      assert s[..step] == if step == 2 then [BACKSLASH, QUOTE] else [s[0]];
    }
  }

  /** A character that neither ends the literal nor hides a quote. */
  lemma Taken(c: char, rest: string)
    requires c != QUOTE && !(c == BACKSLASH && rest != [] && rest[0] == QUOTE)
    ensures InString([c] + rest) == [c] + InString(rest)
  {
    var s := [c] + rest;
    hide InString;
    assert s[1..] == rest;
    InStringStep(s);
  }

  /** An escaped quote. */
  lemma HiddenQuote(rest: string)
    ensures InString([BACKSLASH, QUOTE] + rest) == [BACKSLASH, QUOTE] + InString(rest)
  {
    var s := [BACKSLASH, QUOTE] + rest;
    hide InString;
    assert s[2..] == rest;
    InStringStep(s);
  }

  predicate Verbatim(w: string) {
    forall i :: 0 <= i < |w| ==> w[i] != QUOTE && w[i] != BACKSLASH
  }

  /** Neither quotes nor backslashes: copied. */
  lemma {:induction false} Copied(w: string, rest: string)
    requires Verbatim(w)
    ensures InString(w + rest) == w + InString(rest)
  {
    hide InString;
    if w == [] {
      assert w + rest == rest;
    } else {
      var head, tail := [w[0]], w[1..];
      Copied(tail, rest);
      Taken(w[0], tail + rest);
      assert w == head + tail;
      Associative(head, tail, rest);
      Associative(head, tail, InString(rest));
    }
  }

  /** Escaped text never starts with a quote. */
  lemma EscapeHead(t: string)
    requires t != []
    ensures Escape(t) != [] && Escape(t)[0] != QUOTE
  {}

  /** One escaped character; behind a backslash the closing quote must not follow. */
  lemma OneEscape(c: char, rest: string)
    requires c == BACKSLASH ==> rest != [] && rest[0] != QUOTE
    ensures InString(EscapeChar(c) + rest) == EscapeChar(c) + InString(rest)
  {
    hide InString;
    var e := EscapeChar(c);
    if c == QUOTE {
      HiddenQuote(rest);
    } else if e == [c] {
      Copied(e, rest);
    } else {
      var first, tail := [BACKSLASH], e[1..];
      assert e == first + tail;
      Associative(first, tail, rest);
      Associative(first, tail, InString(rest));
      EscapeTail(c);
      if c == BACKSLASH {
        Taken(BACKSLASH, rest);
      } else {
        Copied(tail, rest);
      }
      Taken(BACKSLASH, tail + rest);
    }
  }

  lemma EscapeTail(c: char)
    requires c != QUOTE && EscapeChar(c) != [c]
    ensures var e := EscapeChar(c);
            && |e| > 1 && e[0] == BACKSLASH && e[1] != QUOTE
            && (if c == BACKSLASH then e[1..] == [BACKSLASH] else Verbatim(e[1..]))
  {}

  /** The text that follows a literal, as the minifier reads it. */
  function AfterLiteral(t: string, rest: string): string {
    if EndsInBackslash(t) then InString(rest) else Minified(rest)
  }

  /** A closing quote behind a backslash does not close. */
  lemma NotClosed(rest: string)
    ensures InString([BACKSLASH, BACKSLASH, QUOTE] + rest) == [BACKSLASH, BACKSLASH, QUOTE] + InString(rest)
  {
    hide InString;
    var first, second := [BACKSLASH], [BACKSLASH, QUOTE];
    assert first + second == [BACKSLASH, BACKSLASH, QUOTE];
    HiddenQuote(rest);
    Taken(BACKSLASH, second + rest);
    Associative(first, second, rest);
    Associative(first, second, InString(rest));
  }

  lemma ClosedAt(rest: string)
    ensures InString([QUOTE] + rest) == [QUOTE] + Minified(rest)
  {
    var s := [QUOTE] + rest;
    assert s[1..] == rest;
    InStringStep(s);
  }

  /** One more piece in front. */
  lemma Front(a: string, b: string, c: string, rest: string)
    ensures a + b + c + rest == a + (b + c + rest)
  {}

  lemma {:induction false} LiteralBody(t: string, rest: string)
    ensures InString(Escape(t) + [QUOTE] + rest) == Escape(t) + [QUOTE] + AfterLiteral(t, rest)
  {
    hide InString, Minified, EscapeChar;
    if t == [] {
      ClosedAt(rest);
      assert Escape(t) + [QUOTE] == [QUOTE];
    } else if t == [BACKSLASH] {
      NotClosed(rest);
      LoneBackslash();
      assert Escape(t) + [QUOTE] == [BACKSLASH, BACKSLASH, QUOTE];
    } else {
      var e, more := EscapeChar(t[0]), Escape(t[1..]);
      LiteralBody(t[1..], rest);
      if t[0] == BACKSLASH { EscapeHead(t[1..]); }
      OneEscape(t[0], more + [QUOTE] + rest);
      Front(e, more, [QUOTE], rest);
      Front(e, more, [QUOTE], AfterLiteral(t, rest));
    }
  }

  lemma LoneBackslash()
    ensures Escape([BACKSLASH]) == [BACKSLASH, BACKSLASH]
  {
    assert Escape([BACKSLASH]) == EscapeChar(BACKSLASH) + Escape([]);
  }

  lemma Literal(t: string, rest: string)
    ensures Minified(RenderString(t) + rest) == RenderString(t) + AfterLiteral(t, rest)
  {
    LiteralBody(t, rest);
    hide InString, Escape;
    Front([QUOTE], Escape(t), [QUOTE], rest);
    Front([QUOTE], Escape(t), [QUOTE], AfterLiteral(t, rest));
    Opened(Escape(t) + [QUOTE] + rest);
  }

  lemma Opened(body: string)
    ensures Minified([QUOTE] + body) == [QUOTE] + InString(body)
  {
    assert ([QUOTE] + body)[1..] == body;
  }

  // ---- Rendered text in pieces --------------------------------------------------------------

  function Opening(format: bool): string {
    if format then "{\n" else "{"
  }

  lemma ArrayText(items: seq<Value>, format: bool, depth: nat, rest: string)
    ensures RenderValue(Array(items), format, depth) + rest
         == "[" + (RenderItems(items, format, depth + 1) + ("]" + rest))
  {
    var body := RenderItems(items, format, depth + 1);
    assert RenderValue(Array(items), format, depth) == "[" + body + "]";
    hide *;
    Front("[", body, "]", rest);
    Associative(body, "]", rest);
  }

  lemma ItemsText(items: seq<Value>, format: bool, depth: nat, rest: string)
    requires |items| > 1
    ensures RenderItems(items, format, depth) + rest
         == RenderValue(items[0], format, depth) + (Separator(format) + (RenderItems(items[1..], format, depth) + rest))
  {
    var first, more := RenderValue(items[0], format, depth), RenderItems(items[1..], format, depth);
    assert RenderItems(items, format, depth) == first + (Separator(format) + more);
    hide *;
    Associative(first, Separator(format) + more, rest);
    Associative(Separator(format), more, rest);
  }

  lemma OneItem(items: seq<Value>, format: bool, depth: nat)
    requires |items| == 1
    ensures RenderItems(items, format, depth) == RenderValue(items[0], format, depth)
  {}

  lemma ObjectText(members: Members, format: bool, depth: nat, rest: string)
    ensures RenderValue(Object(members), format, depth) + rest
         == Opening(format) + (RenderMembers(members, format, depth + 1) + (CloseText(format, depth) + rest))
  {
    var body := RenderMembers(members, format, depth + 1);
    var tabs := Indent(format, depth);
    assert RenderValue(Object(members), format, depth) == Opening(format) + body + tabs + "}";
    assert CloseText(format, depth) == tabs + "}";
    hide *;
    Associative(Opening(format) + body, tabs, "}");
    Front(Opening(format), body, tabs + "}", rest);
    Associative(body, tabs + "}", rest);
  }

  lemma MembersText(members: Members, format: bool, depth: nat, rest: string)
    requires members != []
    ensures RenderMembers(members, format, depth) + rest
         == Indent(format, depth)
            + (RenderString(members[0].key)
               + (Colon(format)
                  + (RenderValue(members[0].item, format, depth)
                     + (RenderEnd(|members| == 1, format)
                        + (RenderMembers(members[1..], format, depth) + rest)))))
  {
    var indent, key, colon := Indent(format, depth), RenderString(members[0].key), Colon(format);
    var item, end := RenderValue(members[0].item, format, depth), RenderEnd(|members| == 1, format);
    var more := RenderMembers(members[1..], format, depth);
    assert RenderKey(members[0].key, format, depth) == indent + key + colon;
    assert RenderMembers(members, format, depth) == indent + key + colon + item + end + more;
    hide *;
    Front(indent + key + colon + item, end, more, rest);
    Associative(end, more, rest);
    Front(indent, key, colon, item + (end + (more + rest)));
    Associative(indent + key + colon, item, end + (more + rest));
    Associative(key, colon, item + (end + (more + rest)));
  }

  /** Rendered values are not empty and start with no blank. */
  lemma Head(v: Value, depth: nat)
    requires Printable(v)
    ensures RenderValue(v, false, depth) != [] && !IsBlank(RenderValue(v, false, depth)[0])
  {
    match v
    case Number(num) => NumberOrdinary(num);
    case _ =>
  }

  lemma NumberOrdinary(num: real)
    ensures forall i :: 0 <= i < |RenderNumber(num)| ==> Ordinary(RenderNumber(num)[i])
  {
    var n := if num.Floor < 0 then -num.Floor else num.Floor;
    var digits := Decimal(n);
    assert AllDigits(digits);
    assert forall i :: 0 <= i < |digits| ==> IsDigit(digits[i]);
  }

  // ---- Trees that survive -------------------------------------------------------------------

  lemma {:induction false} Pass(v: Value, depth: nat, rest: string)
    requires Printable(v) && Survives(v, false)
    ensures Minified(RenderValue(v, true, depth) + rest) == RenderValue(v, false, depth) + Minified(rest)
    decreases v, 0
  {
    hide Minified;
    match v
    case Null => Through("null", rest);
    case False => Through("false", rest);
    case True => Through("true", rest);
    case Number(num) =>
      NumberOrdinary(num);
      Through(RenderNumber(num), rest);
    case String(text) => Literal(text, rest);
    case Array(items) =>
      hide RenderValue, RenderItems;
      ArrayText(items, true, depth, rest);
      ArrayText(items, false, depth, Minified(rest));
      Through("[", RenderItems(items, true, depth + 1) + ("]" + rest));
      Through("]", rest);
      if items == [] {
        NoItemsText(depth + 1, "]" + rest);
        NoItemsText(depth + 1, "]" + Minified(rest));
      } else {
        PassItems(items, depth + 1, "]" + rest);
      }
    case Object(members) =>
      PassObject(members, depth, rest);
  }

  lemma NoItemsText(depth: nat, rest: string)
    ensures RenderItems([], true, depth) + rest == rest
    ensures RenderItems([], false, depth) + rest == rest
  {}

  lemma {:induction false} PassItems(items: seq<Value>, depth: nat, rest: string)
    requires items != [] && forall i :: 0 <= i < |items| ==> Printable(items[i]) && Survives(items[i], false)
    ensures Minified(RenderItems(items, true, depth) + rest) == RenderItems(items, false, depth) + Minified(rest)
    decreases items, 1
  {
    hide Minified, RenderValue, RenderItems;
    if |items| == 1 {
      OneItem(items, true, depth);
      OneItem(items, false, depth);
      Pass(items[0], depth, rest);
    } else {
      PassItem(items, depth, rest);
      PassItems(items[1..], depth, rest);
      ItemsText(items, false, depth, Minified(rest));
    }
  }

  /** The first of several items. */
  lemma {:induction false} PassItem(items: seq<Value>, depth: nat, rest: string)
    requires |items| > 1 && Printable(items[0]) && Survives(items[0], false)
    ensures Minified(RenderItems(items, true, depth) + rest)
         == RenderValue(items[0], false, depth) + ("," + Minified(RenderItems(items[1..], true, depth) + rest))
    decreases items, 0
  {
    hide Minified, RenderValue, RenderItems;
    var more := RenderItems(items[1..], true, depth) + rest;
    ItemsText(items, true, depth, rest);
    Pass(items[0], depth, ", " + more);
    Associative(",", " ", more);
    assert "," + " " == ", ";
    Through(",", " " + more);
    Over(" ", more);
  }

  lemma {:induction false} PassObject(members: Members, depth: nat, rest: string)
    requires Printable(Object(members)) && Survives(Object(members), false)
    ensures Minified(RenderValue(Object(members), true, depth) + rest)
         == RenderValue(Object(members), false, depth) + Minified(rest)
    decreases members, 2
  {
    hide Minified, RenderValue, RenderMembers;
    var more := CloseText(true, depth) + rest;
    ObjectText(members, true, depth, rest);
    ObjectText(members, false, depth, Minified(rest));
    Associative("{", "\n", RenderMembers(members, true, depth + 1) + more);
    assert "{" + "\n" == "{\n";
    Through("{", "\n" + (RenderMembers(members, true, depth + 1) + more));
    Over("\n", RenderMembers(members, true, depth + 1) + more);
    PassMembers(members, depth + 1, more);
    Associative(Tabs(depth), "}", rest);
    Over(Tabs(depth), "}" + rest);
    Through("}", rest);
  }

  lemma {:induction false} PassMembers(members: Members, depth: nat, rest: string)
    requires forall i :: 0 <= i < |members| ==>
               && Printable(members[i].item) && Survives(members[i].item, false)
               && !EndsInBackslash(members[i].key)
    ensures Minified(RenderMembers(members, true, depth) + rest) == RenderMembers(members, false, depth) + Minified(rest)
    decreases members, 1
  {
    hide Minified, RenderValue, RenderMembers;
    if members == [] {
      NoMembers(depth, rest);
      NoMembers(depth, Minified(rest));
    } else {
      PassMember(members, depth, rest);
      PassMembers(members[1..], depth, rest);
      MembersText(members, false, depth, Minified(rest));
    }
  }

  lemma NoMembers(depth: nat, rest: string)
    ensures RenderMembers([], true, depth) + rest == rest
    ensures RenderMembers([], false, depth) + rest == rest
  {}

  lemma {:induction false} PassMember(members: Members, depth: nat, rest: string)
    requires members != [] && Printable(members[0].item) && Survives(members[0].item, false)
    requires !EndsInBackslash(members[0].key)
    ensures Minified(RenderMembers(members, true, depth) + rest)
         == Indent(false, depth)
            + (RenderString(members[0].key)
               + (Colon(false)
                  + (RenderValue(members[0].item, false, depth)
                     + (RenderEnd(|members| == 1, false)
                        + Minified(RenderMembers(members[1..], true, depth) + rest)))))
    decreases members, 0
  {
    hide Minified, RenderValue, RenderMembers, RenderString;
    var last := |members| == 1;
    var more := RenderMembers(members[1..], true, depth) + rest;
    var tail := RenderEnd(last, true) + more;
    PassKey(members, depth, rest);
    Pass(members[0].item, depth, tail);
    EndOfMember(last, more);
  }

  /** A member up to its value, which is still to come. */
  lemma PassKey(members: Members, depth: nat, rest: string)
    requires members != [] && !EndsInBackslash(members[0].key)
    ensures Minified(RenderMembers(members, true, depth) + rest)
         == Indent(false, depth)
            + (RenderString(members[0].key)
               + (Colon(false)
                  + Minified(RenderValue(members[0].item, true, depth)
                     + (RenderEnd(|members| == 1, true)
                        + (RenderMembers(members[1..], true, depth) + rest)))))
  {
    hide Minified, RenderValue, RenderMembers, RenderString;
    var more := RenderMembers(members[1..], true, depth) + rest;
    var body := RenderValue(members[0].item, true, depth) + (RenderEnd(|members| == 1, true) + more);
    var key := RenderString(members[0].key);
    MembersText(members, true, depth, rest);
    Over(Tabs(depth), key + (":\t" + body));
    Literal(members[0].key, ":\t" + body);
    Associative(":", "\t", body);
    assert ":" + "\t" == ":\t";
    Through(":", "\t" + body);
    Over("\t", body);
    assert Indent(false, depth) + (key + (":" + Minified(body))) == key + (":" + Minified(body));
  }

  lemma EndOfMember(last: bool, more: string)
    ensures Minified(RenderEnd(last, true) + more) == RenderEnd(last, false) + Minified(more)
  {
    hide Minified;
    if last {
      assert RenderEnd(true, true) == "\n";
      assert RenderEnd(true, false) == "";
      assert "" + Minified(more) == Minified(more);
      Over("\n", more);
    } else {
      assert RenderEnd(false, true) == "," + "\n";
      assert RenderEnd(false, false) == ",";
      Associative(",", "\n", more);
      Through(",", "\n" + more);
      Over("\n", more);
    }
  }

  // ---- Trees that do not survive ------------------------------------------------------------

  /** A blank that one text has where the other goes on. */
  lemma Gap(w: string, c: char, x: string, y: string)
    requires y != [] && y[0] != c
    ensures Diverge(w + [c] + x, w + y)
  {
    var a, b := w + [c] + x, w + y;
    assert a[|w|] == c && b[|w|] == y[0];
  }

  /** What comes after a literal left open, when the next character is a blank of the formatted text. */
  lemma OpenGap(w: string, c: char, x: string, y: string)
    requires Verbatim(w + [c]) && y != [] && y[0] != c
    ensures Diverge(InString(w + [c] + x), w + y)
  {
    Copied(w + [c], x);
    Gap(w, c, InString(x), y);
  }

  lemma {:induction false} Fail(v: Value, depth: nat, rest: string, plain: string)
    requires Printable(v) && !Survives(v, false)
    requires v.Object? || Diverge(InString(rest), plain)
    ensures Diverge(Minified(RenderValue(v, true, depth) + rest), RenderValue(v, false, depth) + plain)
    decreases v, 0
  {
    hide Minified, InString, RenderItems, RenderMembers, RenderString, Diverge;
    match v
    case String(text) =>
      Literal(text, rest);
      DivergeBehind(RenderString(text), InString(rest), plain);
    case Array(items) =>
      hide RenderValue;
      Copied("]", rest);
      DivergeBehind("]", InString(rest), plain);
      FailItems(items, depth + 1, "]" + rest, "]" + plain);
      ArrayText(items, true, depth, rest);
      ArrayText(items, false, depth, plain);
      Through("[", RenderItems(items, true, depth + 1) + ("]" + rest));
      DivergeBehind("[", Minified(RenderItems(items, true, depth + 1) + ("]" + rest)),
                    RenderItems(items, false, depth + 1) + ("]" + plain));
    case Object(members) =>
      FailObject(members, depth, rest, plain);
    case _ =>
  }

  lemma {:induction false} FailItems(items: seq<Value>, depth: nat, rest: string, plain: string)
    requires forall i :: 0 <= i < |items| ==> Printable(items[i])
    requires exists i :: 0 <= i < |items| && !Survives(items[i], false)
    requires Diverge(InString(rest), plain)
    ensures Diverge(Minified(RenderItems(items, true, depth) + rest), RenderItems(items, false, depth) + plain)
    decreases items, 2
  {
    hide Minified, InString, RenderItems, RenderValue, Diverge;
    if |items| == 1 {
      OneItem(items, true, depth);
      OneItem(items, false, depth);
      Fail(items[0], depth, rest, plain);
    } else if !Survives(items[0], false) {
      FailItem(items, depth, rest, plain);
    } else {
      FailItems(items[1..], depth, rest, plain);
      LaterItem(items, depth, rest, plain);
    }
  }

  /** The first of several items does not survive. */
  lemma {:induction false} FailItem(items: seq<Value>, depth: nat, rest: string, plain: string)
    requires |items| > 1 && Printable(items[0]) && Printable(items[1]) && !Survives(items[0], false)
    ensures Diverge(Minified(RenderItems(items, true, depth) + rest), RenderItems(items, false, depth) + plain)
    decreases items, 1
  {
    hide Minified, InString, RenderItems, RenderValue, Diverge;
    var more, later := RenderItems(items[1..], true, depth) + rest, RenderItems(items[1..], false, depth) + plain;
    ItemsText(items, true, depth, rest);
    ItemsText(items, false, depth, plain);
    ItemsHead(items[1..], depth);
    assert "," + [' '] == ", ";
    OpenGap(",", ' ', more, later);
    Fail(items[0], depth, ", " + more, "," + later);
  }

  lemma ItemsHead(items: seq<Value>, depth: nat)
    requires items != [] && Printable(items[0])
    ensures RenderItems(items, false, depth) != [] && !IsBlank(RenderItems(items, false, depth)[0])
  {
    Head(items[0], depth);
  }

  /** The first item survives, a later one does not. */
  lemma LaterItem(items: seq<Value>, depth: nat, rest: string, plain: string)
    requires |items| > 1 && Printable(items[0]) && Survives(items[0], false)
    requires Diverge(Minified(RenderItems(items[1..], true, depth) + rest), RenderItems(items[1..], false, depth) + plain)
    ensures Diverge(Minified(RenderItems(items, true, depth) + rest), RenderItems(items, false, depth) + plain)
  {
    hide Minified, RenderItems, RenderValue, Diverge;
    var more, later := RenderItems(items[1..], true, depth) + rest, RenderItems(items[1..], false, depth) + plain;
    PassItem(items, depth, rest);
    ItemsText(items, false, depth, plain);
    DivergeBehind(",", Minified(more), later);
    DivergeBehind(RenderValue(items[0], false, depth), "," + Minified(more), "," + later);
  }

  lemma {:induction false} FailObject(members: Members, depth: nat, rest: string, plain: string)
    requires Printable(Object(members)) && !Survives(Object(members), false)
    ensures Diverge(Minified(RenderValue(Object(members), true, depth) + rest),
                    RenderValue(Object(members), false, depth) + plain)
    decreases members, 2
  {
    hide Minified, RenderValue, RenderMembers, Diverge;
    var more, later := CloseText(true, depth) + rest, CloseText(false, depth) + plain;
    assert CloseText(false, depth) == "}";
    var text, short := RenderMembers(members, true, depth + 1) + more, RenderMembers(members, false, depth + 1) + later;
    ObjectText(members, true, depth, rest);
    ObjectText(members, false, depth, plain);
    Associative("{", "\n", text);
    assert "{" + "\n" == "{\n";
    Through("{", "\n" + text);
    Over("\n", text);
    FailMembers(members, depth + 1, more, later);
    DivergeBehind("{", Minified(text), short);
  }

  lemma {:induction false} FailMembers(members: Members, depth: nat, rest: string, plain: string)
    requires forall i :: 0 <= i < |members| ==> Printable(members[i].item)
    requires exists i :: 0 <= i < |members|
                         && (EndsInBackslash(members[i].key) || !Survives(members[i].item, false))
    requires plain != [] && plain[0] != NEWLINE
    ensures Diverge(Minified(RenderMembers(members, true, depth) + rest), RenderMembers(members, false, depth) + plain)
    decreases members, 1
  {
    hide Minified, RenderMembers, Diverge;
    if EndsInBackslash(members[0].key) {
      FailKey(members, depth, rest, plain);
    } else if !Survives(members[0].item, false) {
      FailMember(members, depth, rest, plain);
    } else {
      FailMembers(members[1..], depth, rest, plain);
      LaterMember(members, depth, rest, plain);
    }
  }

  /** The key of the first member ends in a backslash. */
  lemma FailKey(members: Members, depth: nat, rest: string, plain: string)
    requires members != [] && Printable(members[0].item) && EndsInBackslash(members[0].key)
    ensures Diverge(Minified(RenderMembers(members, true, depth) + rest), RenderMembers(members, false, depth) + plain)
  {
    hide Minified, InString, RenderMembers, RenderString, RenderValue, Diverge;
    var item, end := RenderValue(members[0].item, true, depth), RenderEnd(|members| == 1, true);
    var body := item + (end + (RenderMembers(members[1..], true, depth) + rest));
    var value := RenderValue(members[0].item, false, depth);
    var short := value + (RenderEnd(|members| == 1, false) + (RenderMembers(members[1..], false, depth) + plain));
    var key := RenderString(members[0].key);
    MembersText(members, true, depth, rest);
    MembersText(members, false, depth, plain);
    Over(Tabs(depth), key + (":\t" + body));
    Literal(members[0].key, ":\t" + body);
    Head(members[0].item, depth);
    assert ":" + [TAB] == ":\t";
    OpenGap(":", TAB, body, short);
    DivergeBehind(key, InString(":\t" + body), ":" + short);
    assert Indent(false, depth) + (key + (":" + short)) == key + (":" + short);
  }

  /** The value of the first member does not survive. */
  lemma {:induction false} FailMember(members: Members, depth: nat, rest: string, plain: string)
    requires members != [] && Printable(members[0].item)
    requires !EndsInBackslash(members[0].key) && !Survives(members[0].item, false)
    requires plain != [] && plain[0] != NEWLINE
    ensures Diverge(Minified(RenderMembers(members, true, depth) + rest), RenderMembers(members, false, depth) + plain)
    decreases members, 0
  {
    hide Minified, InString, RenderMembers, RenderString, RenderValue, Diverge;
    var last := |members| == 1;
    var more, later := RenderMembers(members[1..], true, depth) + rest, RenderMembers(members[1..], false, depth) + plain;
    var tail, short := RenderEnd(last, true) + more, RenderEnd(last, false) + later;
    var value := RenderValue(members[0].item, true, depth) + tail;
    var key := RenderString(members[0].key);
    EndGap(members, depth, rest, plain);
    Fail(members[0].item, depth, tail, short);
    PassKey(members, depth, rest);
    MembersText(members, false, depth, plain);
    var brief := RenderValue(members[0].item, false, depth) + short;
    DivergeBehind(":", Minified(value), brief);
    DivergeBehind(key, ":" + Minified(value), ":" + brief);
    DivergeBehind(Indent(false, depth), key + (":" + Minified(value)), key + (":" + brief));
  }

  /** Behind the value of a member the formatted text has a newline where the other goes on. */
  lemma EndGap(members: Members, depth: nat, rest: string, plain: string)
    requires members != [] && plain != [] && plain[0] != NEWLINE
    ensures Diverge(InString(RenderEnd(|members| == 1, true) + (RenderMembers(members[1..], true, depth) + rest)),
                    RenderEnd(|members| == 1, false) + (RenderMembers(members[1..], false, depth) + plain))
  {
    hide Minified, InString, RenderMembers, RenderString, RenderValue, Diverge;
    var more, later := RenderMembers(members[1..], true, depth) + rest, RenderMembers(members[1..], false, depth) + plain;
    if |members| == 1 {
      NoMembers(depth, plain);
      assert "" + [NEWLINE] == RenderEnd(true, true) && RenderEnd(true, false) == "";
      OpenGap("", NEWLINE, more, later);
    } else {
      assert "," + [NEWLINE] == RenderEnd(false, true) && RenderEnd(false, false) == ",";
      MembersHead(members[1..], depth, plain);
      OpenGap(",", NEWLINE, more, later);
    }
  }

  lemma MembersHead(members: Members, depth: nat, rest: string)
    requires members != []
    ensures var text := RenderMembers(members, false, depth) + rest; text != [] && text[0] == QUOTE
  {}

  /** The first member survives, a later one does not. */
  lemma LaterMember(members: Members, depth: nat, rest: string, plain: string)
    requires members != [] && Printable(members[0].item)
    requires !EndsInBackslash(members[0].key) && Survives(members[0].item, false)
    requires Diverge(Minified(RenderMembers(members[1..], true, depth) + rest),
                     RenderMembers(members[1..], false, depth) + plain)
    ensures Diverge(Minified(RenderMembers(members, true, depth) + rest), RenderMembers(members, false, depth) + plain)
  {
    hide Minified, RenderMembers, RenderString, RenderValue, Diverge;
    var a, b := Minified(RenderMembers(members[1..], true, depth) + rest), RenderMembers(members[1..], false, depth) + plain;
    var end, value := RenderEnd(|members| == 1, false), RenderValue(members[0].item, false, depth);
    var key := RenderString(members[0].key);
    PassMember(members, depth, rest);
    MembersText(members, false, depth, plain);
    DivergeBehind(end, a, b);
    DivergeBehind(value, end + a, end + b);
    DivergeBehind(":", value + (end + a), value + (end + b));
    DivergeBehind(key, ":" + (value + (end + a)), ":" + (value + (end + b)));
    DivergeBehind(Indent(false, depth), key + (":" + (value + (end + a))), key + (":" + (value + (end + b))));
  }

  // ---- The end of the text ------------------------------------------------------------------

  predicate Brackets(rest: string) {
    forall i :: 0 <= i < |rest| ==> rest[i] == ']'
  }

  /** Closing brackets are kept, inside a literal and outside. */
  lemma BracketsKept(rest: string)
    requires Brackets(rest)
    ensures Minified(rest) == rest && InString(rest) == rest
  {
    assert rest + [] == rest;
    Through(rest, []);
    Copied(rest, []);
  }

  lemma {:induction false} LastPass(v: Value, depth: nat, rest: string)
    requires Printable(v) && Survives(v, true) && Brackets(rest)
    ensures Minified(RenderValue(v, true, depth) + rest) == RenderValue(v, false, depth) + rest
    decreases v, 0
  {
    hide Minified, InString, RenderItems, RenderString;
    BracketsKept(rest);
    if v.String? {
      Literal(v.text, rest);
    } else if v.Array? && v.items != [] {
      hide RenderValue;
      LastPassItems(v.items, depth + 1, "]" + rest);
      ArrayText(v.items, true, depth, rest);
      ArrayText(v.items, false, depth, rest);
      Through("[", RenderItems(v.items, true, depth + 1) + ("]" + rest));
    } else {
      Pass(v, depth, rest);
    }
  }

  lemma {:induction false} LastPassItems(items: seq<Value>, depth: nat, rest: string)
    requires items != [] && Brackets(rest)
    requires forall i :: 0 <= i < |items| ==> Printable(items[i]) && Survives(items[i], i == |items| - 1)
    ensures Minified(RenderItems(items, true, depth) + rest) == RenderItems(items, false, depth) + rest
    decreases items, 1
  {
    hide Minified, RenderValue, RenderItems;
    if |items| == 1 {
      OneItem(items, true, depth);
      OneItem(items, false, depth);
      LastPass(items[0], depth, rest);
    } else {
      PassItem(items, depth, rest);
      LastPassItems(items[1..], depth, rest);
      ItemsText(items, false, depth, rest);
    }
  }

  lemma WhatFails(v: Value)
    requires Printable(v) && !Survives(v, true)
    ensures v.Object? ==> !Survives(v, false)
    ensures !v.Object? ==>
              && v.Array?
              && (forall i :: 0 <= i < |v.items| ==> Printable(v.items[i]))
              && exists i :: 0 <= i < |v.items| && !Survives(v.items[i], i == |v.items| - 1)
  {}

  lemma {:induction false} FailLast(v: Value, depth: nat, rest: string)
    requires Printable(v) && !Survives(v, true) && Brackets(rest)
    ensures Diverge(Minified(RenderValue(v, true, depth) + rest), RenderValue(v, false, depth) + rest)
    decreases v, 0
  {
    WhatFails(v);
    hide Minified, InString, RenderItems, RenderMembers, RenderString, RenderValue, Diverge, Printable, Survives;
    if v.Object? {
      Fail(v, depth, rest, rest);
    } else {
      OneMoreBracket(rest);
      FailLastItems(v.items, depth + 1, "]" + rest);
      ArrayDiverges(v.items, depth, rest);
    }
  }

  lemma OneMoreBracket(rest: string)
    requires Brackets(rest)
    ensures Brackets("]" + rest)
  {}

  /** Around the items of an array nothing changes. */
  lemma ArrayDiverges(items: seq<Value>, depth: nat, rest: string)
    requires Diverge(Minified(RenderItems(items, true, depth + 1) + ("]" + rest)),
                     RenderItems(items, false, depth + 1) + ("]" + rest))
    ensures Diverge(Minified(RenderValue(Array(items), true, depth) + rest), RenderValue(Array(items), false, depth) + rest)
  {
    hide Minified, InString, RenderItems, RenderValue, Diverge;
    ArrayText(items, true, depth, rest);
    ArrayText(items, false, depth, rest);
    Through("[", RenderItems(items, true, depth + 1) + ("]" + rest));
    DivergeBehind("[", Minified(RenderItems(items, true, depth + 1) + ("]" + rest)),
                  RenderItems(items, false, depth + 1) + ("]" + rest));
  }

  lemma {:induction false} FailLastItems(items: seq<Value>, depth: nat, rest: string)
    requires forall i :: 0 <= i < |items| ==> Printable(items[i])
    requires exists i :: 0 <= i < |items| && !Survives(items[i], i == |items| - 1)
    requires Brackets(rest)
    ensures Diverge(Minified(RenderItems(items, true, depth) + rest), RenderItems(items, false, depth) + rest)
    decreases items, 1
  {
    hide Minified, RenderItems, RenderValue, Diverge;
    if |items| == 1 {
      OneItem(items, true, depth);
      OneItem(items, false, depth);
      FailLast(items[0], depth, rest);
    } else if !Survives(items[0], false) {
      FailItem(items, depth, rest, rest);
    } else {
      FailLastItems(items[1..], depth, rest);
      LaterItem(items, depth, rest, rest);
    }
  }

  /** Minifying the formatted text gives the unformatted text exactly when the tree survives. */
  lemma MinifyOfFormatted(v: Value)
    requires Printable(v)
    ensures Minified(RenderValue(v, true, 0)) == RenderValue(v, false, 0) <==> Survives(v, true)
  {
    assert RenderValue(v, true, 0) + [] == RenderValue(v, true, 0);
    assert RenderValue(v, false, 0) + [] == RenderValue(v, false, 0);
    if Survives(v, true) { LastPass(v, 0, []); } else { FailLast(v, 0, []); }
  }

  /** Print formatted, minify, parse: the tree comes back, when it survives and is not nested too deep. */
  lemma MinifiedTextParses(v: Value, requireNullTerminated: bool)
    requires Printable(v) && Survives(v, true) && Nesting(v) <= Parse.NESTING_LIMIT
    ensures Parse.ParseText(Minified(RenderValue(v, true, 0)), requireNullTerminated) == Some(v)
  {
    MinifyOfFormatted(v);
    RoundTrip.PrintThenParse(v, false, requireNullTerminated);
  }
}

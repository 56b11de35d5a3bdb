/**
 The text of a tree, formatted and unformatted. `Printer` proves that the growable-buffer printer
 writes exactly this text; `Parse` reads it back.
 */
module Render {
  import opened CString
  import opened Digits
  import opened Json

  const QUOTE: char := '"'
  const BACKSLASH: char := '\\'
  const BACKSPACE: char := 8 as char
  const FORM_FEED: char := 12 as char
  const NEWLINE: char := '\n'
  const RETURN: char := '\r'
  const TAB: char := '\t'
  const NUL: char := '\0'

  function HexDigit(d: nat): char
    requires d < 16
  {
    if d < 10 then '0' + d as char else 'a' + (d - 10) as char
  }

  /** One byte of a string literal. */
  function EscapeChar(c: char): (r: string)
    ensures 1 <= |r| <= 6
  {
    if c == QUOTE || c == BACKSLASH then [BACKSLASH, c]
    else if c == BACKSPACE then [BACKSLASH, 'b']
    else if c == FORM_FEED then [BACKSLASH, 'f']
    else if c == NEWLINE then [BACKSLASH, 'n']
    else if c == RETURN then [BACKSLASH, 'r']
    else if c == TAB then [BACKSLASH, 't']
    else if c as int < 32 then [BACKSLASH, 'u', '0', '0', HexDigit(c as int / 16), HexDigit(c as int % 16)]
    else [c]
  }

  function Escape(s: string): (r: string)
    ensures |r| >= |s|
  {
    if s == [] then [] else EscapeChar(s[0]) + Escape(s[1..])
  }

  function RenderString(s: string): string {
    [QUOTE] + Escape(s) + [QUOTE]
  }

  /** `%1.15g` of a whole number of at most fifteen digits. */
  function RenderNumber(num: real): (r: string)
    ensures |r| > 0
  {
    if num.Floor < 0 then "-" + Decimal(-num.Floor) else Decimal(num.Floor)
  }

  function Tabs(n: nat): (r: string)
    ensures |r| == n && forall i :: 0 <= i < n ==> r[i] == TAB
  {
    seq(n, _ => TAB)
  }

  /** `depth` counts the arrays and objects around the value. */
  function RenderValue(v: Value, format: bool, depth: nat): string
    decreases v, 0
  {
    match v
    case Invalid => ""
    case Null => "null"
    case False => "false"
    case True => "true"
    case Number(num) => RenderNumber(num)
    case String(text) => RenderString(text)
    case Array(items) => "[" + RenderItems(items, format, depth + 1) + "]"
    case Object(members) =>
      (if format then "{\n" else "{") + RenderMembers(members, format, depth + 1)
      + (if format then Tabs(depth) else "") + "}"
  }

  function Separator(format: bool): string {
    if format then ", " else ","
  }

  function RenderItems(items: seq<Value>, format: bool, depth: nat): string
    decreases items, 1
  {
    if items == [] then ""
    else
      RenderValue(items[0], format, depth)
      + if |items| == 1 then "" else Separator(format) + RenderItems(items[1..], format, depth)
  }

  /** Indentation, key and colon in front of the value of a member. */
  function RenderKey(key: string, format: bool, depth: nat): string {
    (if format then Tabs(depth) else "") + RenderString(key) + (if format then ":\t" else ":")
  }

  /** What follows the value of a member. */
  function RenderEnd(last: bool, format: bool): string {
    (if last then "" else ",") + (if format then "\n" else "")
  }

  function RenderMembers(members: Members, format: bool, depth: nat): string
    decreases members, 1
  {
    if members == [] then ""
    else
      RenderKey(members[0].key, format, depth)
      + RenderValue(members[0].item, format, depth)
      + RenderEnd(|members| == 1, format)
      + RenderMembers(members[1..], format, depth)
  }

  // ---- Layout -------------------------------------------------------------------------------

  predicate Blank(s: string) {
    forall i :: 0 <= i < |s| ==> s[i] <= ' '
  }

  function Indent(format: bool, n: nat): (r: string)
    ensures Blank(r)
  {
    if format then Tabs(n) else ""
  }

  function Colon(format: bool): string {
    if format then [':', TAB] else [':']
  }

  function CloseText(format: bool, depth: nat): (r: string)
    ensures |r| == 1 + if format then depth else 0
  {
    (if format then Tabs(depth) else "") + "}"
  }

  /** Trees within the text domain: no `Invalid` node, whole numbers, and strings a C program can hold. */
  predicate Printable(v: Value) {
    match v
    case Invalid => false
    case Number(num) => IsWhole(num)
    case String(text) => IsCString(text)
    case Array(items) => forall i :: 0 <= i < |items| ==> Printable(items[i])
    case Object(members) =>
      forall i :: 0 <= i < |members| ==> IsCString(members[i].key) && Printable(members[i].item)
    case _ => true
  }

  /** The same, but `Invalid` nodes may occur: printing then fails. */
  predicate Renderable(v: Value) {
    match v
    case Number(num) => IsWhole(num)
    case String(text) => IsCString(text)
    case Array(items) => forall i :: 0 <= i < |items| ==> Renderable(items[i])
    case Object(members) =>
      forall i :: 0 <= i < |members| ==> IsCString(members[i].key) && Renderable(members[i].item)
    case _ => true
  }

  /** No `Invalid` node anywhere. */
  predicate Complete(v: Value) {
    match v
    case Invalid => false
    case Array(items) => forall i :: 0 <= i < |items| ==> Complete(items[i])
    case Object(members) => forall i :: 0 <= i < |members| ==> Complete(members[i].item)
    case _ => true
  }

  /** Trees that print are the renderable ones without `Invalid` nodes. */
  lemma {:induction false} PrintableIs(v: Value)
    ensures Printable(v) <==> Renderable(v) && Complete(v)
  {
    match v
    case Array(items) =>
      forall i | 0 <= i < |items| ensures Printable(items[i]) <==> Renderable(items[i]) && Complete(items[i]) {
        PrintableIs(items[i]);
      }
    case Object(members) =>
      forall i | 0 <= i < |members|
        ensures Printable(members[i].item) <==> Renderable(members[i].item) && Complete(members[i].item)
      {
        PrintableIs(members[i].item);
      }
    case _ =>
  }

  // ---- Rendered text holds no NUL -----------------------------------------------------------

  ghost predicate NulFree(s: string) {
    forall i :: 0 <= i < |s| ==> s[i] != NUL
  }

  lemma {:induction false} EscapeNulFree(s: string)
    requires IsCString(s)
    ensures NulFree(Escape(s))
  {
    if s != [] {
      EscapeNulFree(s[1..]);
      assert NulFree(EscapeChar(s[0]));
    }
  }

  lemma {:induction false} DecimalNulFree(n: nat)
    ensures NulFree(Decimal(n))
  {
    assert forall i :: 0 <= i < |Decimal(n)| ==> IsDigit(Decimal(n)[i]);
  }

  lemma {:induction false} RenderNulFree(v: Value, format: bool, depth: nat)
    requires Renderable(v)
    ensures NulFree(RenderValue(v, format, depth))
    decreases v, 0
  {
    hide Escape, RenderItems, RenderMembers;
    match v
    case String(text) => EscapeNulFree(text);
    case Number(num) => DecimalNulFree(if num.Floor < 0 then -num.Floor else num.Floor);
    case Array(items) => RenderItemsNulFree(items, format, depth + 1);
    case Object(members) => RenderMembersNulFree(members, format, depth + 1);
    case _ =>
  }

  lemma {:induction false} RenderItemsNulFree(items: seq<Value>, format: bool, depth: nat)
    requires forall i :: 0 <= i < |items| ==> Renderable(items[i])
    ensures NulFree(RenderItems(items, format, depth))
    decreases items, 1
  {
    if items != [] {
      RenderNulFree(items[0], format, depth);
      RenderItemsNulFree(items[1..], format, depth);
    }
  }

  lemma RenderedMember(members: Members, format: bool, depth: nat)
    requires members != []
    ensures RenderMembers(members, format, depth)
         == RenderKey(members[0].key, format, depth) + RenderValue(members[0].item, format, depth)
            + RenderEnd(|members| == 1, format) + RenderMembers(members[1..], format, depth)
  {}

  lemma KeyNulFree(key: string, format: bool, depth: nat)
    requires IsCString(key)
    ensures NulFree(RenderKey(key, format, depth))
  {
    EscapeNulFree(key);
  }

  lemma {:induction false} RenderMembersNulFree(members: Members, format: bool, depth: nat)
    requires forall i :: 0 <= i < |members| ==> IsCString(members[i].key) && Renderable(members[i].item)
    ensures NulFree(RenderMembers(members, format, depth))
    decreases members, 1
  {
    if members != [] {
      KeyNulFree(members[0].key, format, depth);
      RenderNulFree(members[0].item, format, depth);
      RenderMembersNulFree(members[1..], format, depth);
      hide RenderKey, RenderValue, RenderMembers;
      RenderedMember(members, format, depth);
    }
  }
}

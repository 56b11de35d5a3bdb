/**
 The printer: a buffer that grows, or may not grow, under a cursor. It is proved to write exactly the
 text of `Render`, to write only where `ensure` has made room, and to fail exactly when there is too
 little room or the tree holds an `Invalid` node.
 */
module Printer {
  import opened CString
  import opened Digits
  import opened Json
  import opened Render

  const INT_MAX: nat := 2147483647

  class PrintBuffer {
    var buffer: array<char>
    var length: nat
    var offset: nat
    var depth: nat
    const noalloc: bool
    const format: bool
    const reallocate: bool
    /** End of the bytes that the last successful `ensure` put at the caller's disposal. */
    ghost var reserved: nat

    ghost predicate Valid()
      reads this, buffer
    {
      && buffer.Length == length <= INT_MAX
      && (offset < length || (offset == length == 0 && noalloc))
      && reserved <= length
    }

    /** The text in front of the cursor. */
    ghost function Written(): string
      reads this, buffer
      requires Valid()
    {
      buffer[..offset]
    }

    /** How far the text may reach, its NUL and one spare byte included. */
    ghost function Limit(): nat
      reads this
    {
      if noalloc then length else INT_MAX
    }

    /** The buffer holds the C string `all`, and the cursor stands inside it. */
    ghost predicate Holds(all: string)
      reads this, buffer
    {
      && offset <= |all| < buffer.Length
      && buffer[..|all|] == all
      && buffer[|all|] == NUL
    }

    constructor (buffer: array<char>, noalloc: bool, format: bool, reallocate: bool)
      requires buffer.Length <= INT_MAX && (buffer.Length > 0 || noalloc)
      ensures Valid() && Written() == "" && depth == 0
      ensures this.buffer == buffer && length == buffer.Length
      ensures this.noalloc == noalloc && this.format == format
    {
      this.buffer := buffer;
      this.length := buffer.Length;
      this.offset := 0;
      this.depth := 0;
      this.noalloc := noalloc;
      this.format := format;
      this.reallocate := reallocate;
      this.reserved := 0;
    }

    /** `ensure`: room for `needed` bytes at the cursor, and one more. */
    method Ensure(needed: nat) returns (ok: bool)
      requires Valid()
      modifies this`buffer, this`length, this`reserved
      ensures Valid() && Written() == old(Written()) && Limit() == old(Limit())
      ensures ok <==> offset + needed + 1 <= Limit()
      ensures ok ==> reserved == offset + needed < length
      ensures buffer == old(buffer) || (!noalloc && fresh(buffer))
    {
      if length > 0 && offset >= length {
        return false;
      }
      if needed > INT_MAX {
        return false;
      }
      var total := needed + offset + 1;
      if total <= length {
        reserved := offset + needed;
        return true;
      }
      if noalloc {
        return false;
      }
      var newSize: nat;
      if total > INT_MAX / 2 {
        if total <= INT_MAX {
          newSize := INT_MAX;
        } else {
          return false;
        }
      } else {
        newSize := total * 2;
      }
      var newBuffer := new char[newSize];
      var kept := if reallocate then length else offset + 1;
      forall i | 0 <= i < kept {
        newBuffer[i] := buffer[i];
      }
      assert newBuffer[..offset] == buffer[..offset];
      length := newSize;
      buffer := newBuffer;
      reserved := offset + needed;
      return true;
    }

    /** Writes one byte, inside what has been reserved. */
    method Put(i: nat, c: char)
      requires Valid() && offset <= i < reserved
      modifies buffer
      ensures Valid() && buffer[..] == old(buffer[..])[i := c]
    {
      buffer[i] := c;
    }

    /** Writes text at position `at`, byte by byte. */
    method PutText(at: nat, s: string)
      requires Valid() && offset <= at && at + |s| <= reserved
      modifies buffer
      ensures Valid() && Written() == old(Written())
      ensures buffer[..at + |s|] == old(buffer[..at]) + s
    {
      ghost var before := buffer[..at];
      for i := 0 to |s|
        invariant Valid()
        invariant buffer[..at + i] == before + s[..i]
      {
        Put(at + i, s[i]);
        assert buffer[..at + i + 1] == buffer[..at + i] + [s[i]];
        assert s[..i + 1] == s[..i] + [s[i]];
      }
      assert s[..|s|] == s;
      assert buffer[..offset] == buffer[..at + |s|][..offset] && before[..offset] == old(buffer[..offset]);
    }

    /** Writes text at the cursor and moves the cursor behind it. */
    method Append(s: string)
      requires Valid() && offset + |s| <= reserved && offset + |s| < length
      modifies this`offset, buffer
      ensures Valid() && Written() == old(Written()) + s
    {
      PutText(offset, s);
      offset := offset + |s|;
    }

    /** Writes text and its NUL at the cursor, which stays where it is. */
    method PutString(s: string)
      requires Valid() && offset + |s| + 1 <= reserved
      modifies buffer
      ensures Valid() && Written() == old(Written()) && Holds(old(Written()) + s)
    {
      PutText(offset, s + [NUL]);
      NulBehind(Written(), s);
    }

    /** Text and a NUL behind the cursor make up a C string. */
    lemma NulBehind(before: string, s: string)
      requires Valid() && |before| + |s| < buffer.Length && offset == |before|
      requires buffer[..|before| + |s| + 1] == before + (s + [NUL])
      ensures Holds(before + s)
    {
      var end := |before + s|;
      assert before + (s + [NUL]) == (before + s) + [NUL];
      assert buffer[..end] == buffer[..end + 1][..end];
      assert buffer[end] == buffer[..end + 1][end];
    }

    /** `update_offset`: moves the cursor to the end of the C string it stands in. */
    method UpdateOffset(ghost all: string)
      requires Valid() && Holds(all)
      requires forall i :: offset <= i < |all| ==> all[i] != NUL
      modifies this`offset
      ensures Valid() && Written() == all
    {
      assert forall i :: offset <= i < |all| ==> buffer[i] == buffer[..|all|][i] == all[i];
      var i := offset;
      while buffer[i] != NUL
        invariant offset <= i <= |all|
        decreases |all| - i
      {
        i := i + 1;
      }
      offset := i;
    }
  
    // ---- Scalars ----------------------------------------------------------------------------

    /** `print_string_ptr`: counts what escaping adds, reserves once, then copies or escapes. */
    method PrintString(s: string) returns (ok: bool)
      requires Valid() && IsCString(s)
      modifies this`buffer, this`length, this`reserved, buffer
      ensures Valid() && Limit() == old(Limit()) && (buffer == old(buffer) || (!noalloc && fresh(buffer)))
      ensures Written() == old(Written())
      ensures ok <==> offset + |RenderString(s)| + 2 <= Limit()
      ensures ok ==> Holds(old(Written()) + RenderString(s))
    {
      var escapes := CountEscapes(s);
      var outputLength := |s| + escapes;
      ok := Ensure(outputLength + 3);
      if !ok {
        return;
      }
      if escapes == 0 {
        NothingEscaped(s);
        PutString([QUOTE] + s + [QUOTE]);
      } else {
        PutEscaped(s);
      }
    }

    /** The escaping copy loop. */
    method PutEscaped(s: string)
      requires Valid() && offset + |Escape(s)| + 3 <= reserved
      modifies buffer
      ensures Valid() && Written() == old(Written()) && Holds(old(Written()) + RenderString(s))
    {
      hide Escape, EscapeChar;
      ghost var before := Written();
      PutText(offset, [QUOTE]);
      var at := offset + 1;
      NothingToEscape(s);
      for i := 0 to |s|
        invariant Valid() && Written() == before
        invariant offset < at && at + |Escape(s[i..])| == offset + 1 + |Escape(s)|
        invariant buffer[..at] == before + ([QUOTE] + Escape(s[..i]))
      {
        EscapeNext(s, i);
        var e := EscapeChar(s[i]);
        PutText(at, e);
        Regroup(before, Escape(s[..i]), e);
        at := at + |e|;
      }
      assert s[..|s|] == s;
      PutText(at, [QUOTE, NUL]);
      Regroup(before, Escape(s), [QUOTE, NUL]);
      QuotedText(s);
      NulBehind(before, RenderString(s));
    }

    /** `print_number`, on whole numbers: it leaves the cursor behind the digits. */
    method PrintNumber(num: real) returns (ok: bool)
      requires Valid() && IsWhole(num)
      modifies this`buffer, this`length, this`reserved, this`offset, buffer
      ensures Valid() && Limit() == old(Limit()) && (buffer == old(buffer) || (!noalloc && fresh(buffer)))
      ensures ok <==> old(offset) + |RenderNumber(num)| + 2 <= Limit()
      ensures ok ==> Written() == old(Written()) + RenderNumber(num) && Holds(Written())
      ensures !ok ==> Written() == old(Written())
    {
      var text := RenderNumber(num);
      ok := Ensure(|text| + 1);
      if ok {
        PutString(text);
        offset := offset + |text|;
      }
    }

    /** A constant: `strcpy` of the word and its NUL. */
    method PrintWord(word: string) returns (ok: bool)
      requires Valid()
      modifies this`buffer, this`length, this`reserved, buffer
      ensures Valid() && Limit() == old(Limit()) && (buffer == old(buffer) || (!noalloc && fresh(buffer)))
      ensures Written() == old(Written())
      ensures ok <==> offset + |word| + 2 <= Limit()
      ensures ok ==> Holds(old(Written()) + word)
    {
      ok := Ensure(|word| + 1);
      if ok {
        PutString(word);
      }
    }

    // ---- Values -----------------------------------------------------------------------------

    /** `print_value`. */
    method PrintValue(v: Value) returns (ok: bool)
      requires Valid() && Renderable(v)
      modifies this, buffer
      ensures Valid() && Limit() == old(Limit()) && (buffer == old(buffer) || (!noalloc && fresh(buffer)))
      ensures ok <==> Complete(v) && old(offset) + |RenderValue(v, format, old(depth))| + 2 <= Limit()
      ensures ok ==> depth == old(depth) && offset >= old(offset)
      ensures ok ==> Holds(old(Written()) + RenderValue(v, format, old(depth)))
      decreases v, 1
    {
      match v
      case Invalid => ok := false;
      case Null => ok := PrintWord("null");
      case False => ok := PrintWord("false");
      case True => ok := PrintWord("true");
      case Number(num) => ok := PrintNumber(num);
      case String(text) => ok := PrintString(text);
      case Array(_) => ok := PrintArray(v);
      case Object(_) => ok := PrintObject(v);
    }

    /** Moves the cursor over what has just been printed behind `before`. */
    method SkipPrinted(ghost before: string, ghost text: string)
      requires Valid() && Holds(before + text) && |before| <= offset && NulFree(text)
      modifies this`offset
      ensures Valid() && Written() == before + text
    {
      UpdateOffset(before + text);
    }

    /** Room for `s`, its NUL and no more: then write it and move behind it. */
    method AppendTerminated(s: string, ghost before: string) returns (ok: bool)
      requires Valid() && Written() == before
      modifies this`buffer, this`length, this`reserved, this`offset, buffer
      ensures Valid() && Limit() == old(Limit()) && (buffer == old(buffer) || (!noalloc && fresh(buffer)))
      ensures ok <==> |before| + |s| + 2 <= Limit()
      ensures ok ==> Written() == before + s
    {
      ok := Ensure(|s| + 1);
      if ok {
        PutString(s);
        offset := offset + |s|;
      }
    }

    /** The opening bracket or brace: `needed` bytes of room for it, and one level deeper. */
    method Open(open: string, needed: nat, ghost before: string) returns (ok: bool)
      requires Valid() && Written() == before && |open| <= needed
      modifies this`buffer, this`length, this`reserved, this`offset, this`depth, buffer
      ensures Valid() && Limit() == old(Limit()) && (buffer == old(buffer) || (!noalloc && fresh(buffer)))
      ensures ok <==> |before| + needed + 1 <= Limit()
      ensures ok ==> depth == old(depth) + 1 && Written() == before + open
    {
      ok := Ensure(needed);
      if ok {
        Append(open);
        depth := depth + 1;
      }
    }

    /** The closing bracket or brace with its NUL, and one level back. */
    method Close(close: string, ghost before: string) returns (ok: bool)
      requires Valid() && Written() == before && depth > 0
      modifies this`buffer, this`length, this`reserved, this`depth, buffer
      ensures Valid() && Limit() == old(Limit()) && (buffer == old(buffer) || (!noalloc && fresh(buffer)))
      ensures ok <==> |before| + |close| + 2 <= Limit()
      ensures ok ==> depth == old(depth) - 1 && Holds(before + close)
    {
      ok := Ensure(|close| + 1);
      if ok {
        PutString(close);
        depth := depth - 1;
      }
    }

    /** One turn of the loop in `print_array`: the element, and the separator unless it is the last. */
    method PrintItem(items: seq<Value>, i: nat, ghost before: string) returns (ok: bool)
      requires Valid() && i < |items| && Renderable(items[i]) && Written() == before
      modifies this, buffer
      ensures Valid() && Limit() == old(Limit()) && (buffer == old(buffer) || (!noalloc && fresh(buffer)))
      ensures ok <==> Complete(items[i]) && |before| + |ItemText(items, i, format, old(depth))| + 2 <= Limit()
      ensures ok ==> depth == old(depth) && Written() == before + ItemText(items, i, format, old(depth))
      decreases items, 2
    {
      ghost var text := RenderValue(items[i], format, depth);
      RenderNulFree(items[i], format, depth);
      ok := PrintValue(items[i]);
      if !ok {
        return;
      }
      SkipPrinted(before, text);
      if i + 1 < |items| {
        ok := AppendTerminated(Separator(format), before + text);
        Associative(before, text, Separator(format));
      }
    }

    /** The loop of `print_array`. */
    method PrintItems(items: seq<Value>, ghost before: string) returns (ok: bool)
      requires Valid() && Written() == before && forall i :: 0 <= i < |items| ==> Renderable(items[i])
      modifies this, buffer
      ensures Valid() && Limit() == old(Limit()) && (buffer == old(buffer) || (!noalloc && fresh(buffer)))
      ensures ok <==> (forall i :: 0 <= i < |items| ==> Complete(items[i]))
                      && (items == [] || |before| + |RenderItems(items, format, old(depth))| + 2 <= Limit())
      ensures ok ==> depth == old(depth) && Written() == before + RenderItems(items, format, depth)
      decreases items, 3
    {
      hide RenderValue, RenderItems, ItemText, Complete, Renderable;
      ghost var d, front := depth, "";
      assert items[0..] == items;
      for i := 0 to |items|
        invariant Valid() && Limit() == old(Limit()) && (buffer == old(buffer) || (!noalloc && fresh(buffer)))
        invariant depth == d && Written() == before + front
        invariant front + RenderItems(items[i..], format, d) == RenderItems(items, format, d)
        invariant forall j :: 0 <= j < i ==> Complete(items[j])
        invariant i == 0 || |before + front| + 2 <= Limit()
      {
        ghost var text := ItemText(items, i, format, d);
        ItemsFrom(items, i, format, d);
        ok := PrintItem(items, i, before + front);
        if !ok {
          return;
        }
        Associative(before, front, text);
        Associative(front, text, RenderItems(items[i + 1..], format, d));
        front := front + text;
      }
      RendersNothing(items[|items|..], format, d);
      assert front == RenderItems(items, format, d);
      ok := true;
    }

    /** `print_array`. */
    method PrintArray(v: Value) returns (ok: bool)
      requires Valid() && v.Array? && Renderable(v)
      modifies this, buffer
      ensures Valid() && Limit() == old(Limit()) && (buffer == old(buffer) || (!noalloc && fresh(buffer)))
      ensures ok <==> Complete(v) && old(offset) + |RenderValue(v, format, old(depth))| + 2 <= Limit()
      ensures ok ==> depth == old(depth) && offset >= old(offset)
      ensures ok ==> Holds(old(Written()) + RenderValue(v, format, old(depth)))
      decreases v, 0
    {
      hide RenderValue, RenderItems, Complete, Renderable;
      ChildrenOf(v);
      ghost var before, whole := Written(), RenderItems(v.items, format, depth + 1);
      ArrayText(v, format, depth);
      ok := Open(['['], 1, before);
      if !ok {
        return;
      }
      ok := PrintItems(v.items, before + ['[']);
      if !ok {
        return;
      }
      ok := Close([']'], before + ['['] + whole);
      Join(before, ['['], whole, [']']);
    }

    /** Indentation, key and colon of a member. */
    method PrintKey(key: string, ghost before: string) returns (ok: bool)
      requires Valid() && IsCString(key) && Written() == before
      modifies this`buffer, this`length, this`reserved, this`offset, buffer
      ensures Valid() && Limit() == old(Limit()) && (buffer == old(buffer) || (!noalloc && fresh(buffer)))
      ensures ok <==> |before| + |RenderKey(key, format, depth)| + 1 <= Limit()
      ensures ok ==> Written() == before + RenderKey(key, format, depth)
    {
      hide Escape, RenderString, IsCString;
      ghost var front := before;
      if format {
        ok := Ensure(depth);
        if !ok {
          return;
        }
        Append(Tabs(depth));
        front := before + Tabs(depth);
      }
      ok := PrintString(key);
      if !ok {
        return;
      }
      QuotedNulFree(key);
      SkipPrinted(front, RenderString(key));
      var colon := if format then ":\t" else ":";
      ok := Ensure(|colon|);
      if !ok {
        return;
      }
      Append(colon);
      KeyText(before, key, format, depth);
    }

    /** One turn of the loop in `print_object`. */
    method PrintMember(members: Members, i: nat, ghost before: string) returns (ok: bool)
      requires Valid() && i < |members| && IsCString(members[i].key) && Renderable(members[i].item)
      requires Written() == before
      modifies this, buffer
      ensures Valid() && Limit() == old(Limit()) && (buffer == old(buffer) || (!noalloc && fresh(buffer)))
      ensures ok <==> Complete(members[i].item) && |before| + |MemberText(members, i, format, old(depth))| + 2 <= Limit()
      ensures ok ==> depth == old(depth) && Written() == before + MemberText(members, i, format, old(depth))
      decreases members, 2
    {
      hide RenderValue, RenderKey, RenderEnd, Complete;
      ghost var key, text := RenderKey(members[i].key, format, depth), RenderValue(members[i].item, format, depth);
      ok := PrintKey(members[i].key, before);
      if !ok {
        return;
      }
      RenderNulFree(members[i].item, format, depth);
      ok := PrintValue(members[i].item);
      if !ok {
        return;
      }
      SkipPrinted(before + key, text);
      var end := RenderEnd(i + 1 == |members|, format);
      ok := AppendTerminated(end, before + key + text);
      Associative(before, key, text);
      Associative(before, key + text, end);
    }

    /** The loop of `print_object`. */
    method PrintMembers(members: Members, ghost before: string) returns (ok: bool)
      requires Valid() && Written() == before
      requires forall i :: 0 <= i < |members| ==> IsCString(members[i].key) && Renderable(members[i].item)
      modifies this, buffer
      ensures Valid() && Limit() == old(Limit()) && (buffer == old(buffer) || (!noalloc && fresh(buffer)))
      ensures ok <==> (forall i :: 0 <= i < |members| ==> Complete(members[i].item))
                      && (members == [] || |before| + |RenderMembers(members, format, old(depth))| + 2 <= Limit())
      ensures ok ==> depth == old(depth) && Written() == before + RenderMembers(members, format, depth)
      decreases members, 3
    {
      hide RenderValue, RenderMembers, MemberText, Complete, Renderable;
      ghost var d, front := depth, "";
      assert members[0..] == members;
      for i := 0 to |members|
        invariant Valid() && Limit() == old(Limit()) && (buffer == old(buffer) || (!noalloc && fresh(buffer)))
        invariant depth == d && Written() == before + front
        invariant front + RenderMembers(members[i..], format, d) == RenderMembers(members, format, d)
        invariant forall j :: 0 <= j < i ==> Complete(members[j].item)
        invariant i == 0 || |before + front| + 2 <= Limit()
      {
        ghost var text := MemberText(members, i, format, d);
        MembersFrom(members, i, format, d);
        ok := PrintMember(members, i, before + front);
        if !ok {
          return;
        }
        Associative(before, front, text);
        Associative(front, text, RenderMembers(members[i + 1..], format, d));
        front := front + text;
      }
      NoMembers(members[|members|..], format, d);
      assert front == RenderMembers(members, format, d);
      ok := true;
    }

    /** `print_object`. */
    method PrintObject(v: Value) returns (ok: bool)
      requires Valid() && v.Object? && Renderable(v)
      modifies this, buffer
      ensures Valid() && Limit() == old(Limit()) && (buffer == old(buffer) || (!noalloc && fresh(buffer)))
      ensures ok <==> Complete(v) && old(offset) + |RenderValue(v, format, old(depth))| + 2 <= Limit()
      ensures ok ==> depth == old(depth) && offset >= old(offset)
      ensures ok ==> Holds(old(Written()) + RenderValue(v, format, old(depth)))
      decreases v, 0
    {
      hide RenderValue, RenderMembers, Complete, CloseText, Renderable;
      ChildrenOf(v);
      ghost var before, whole := Written(), RenderMembers(v.members, format, depth + 1);
      var open := if format then "{\n" else "{";
      ObjectText(v, format, depth);
      ok := Open(open, |open| + 1, before);
      if !ok {
        return;
      }
      ok := PrintMembers(v.members, before + open);
      if !ok {
        return;
      }
      var close := CloseText(format, depth - 1);
      ok := Close(close, before + open + whole);
      Join(before, open, whole, close);
    }
  }

  // ---- The public functions -----------------------------------------------------------------

  /** The C string in `a` is `text`. */
  ghost predicate IsText(a: array<char>, text: string)
    reads a
  {
    |text| < a.Length && a[..|text|] == text && a[|text|] == NUL
  }

  /** `cJSON_PrintBuffered`; null stands for NULL. An initial size of 0 is outside the model. */
  method PrintBuffered(item: Value, prebuffer: int, format: bool, reallocate: bool) returns (r: array?<char>)
    requires Renderable(item) && prebuffer != 0 && prebuffer <= INT_MAX
    ensures r != null <==> prebuffer > 0 && Complete(item) && |RenderValue(item, format, 0)| + 2 <= INT_MAX
    ensures r != null ==> fresh(r) && IsText(r, RenderValue(item, format, 0))
  {
    if prebuffer < 0 {
      return null;
    }
    var start := new char[prebuffer];
    var p := new PrintBuffer(start, false, format, reallocate);
    var ok := p.PrintValue(item);
    if !ok {
      return null;
    }
    assert "" + RenderValue(item, format, 0) == RenderValue(item, format, 0);
    return p.buffer;
  }

  /**
   `cJSON_PrintPreallocated`: succeeds exactly when there is one byte more than the text and its NUL
   need. The header advises five.
   */
  method PrintPreallocated(item: Value, buffer: array<char>, length: int, format: bool) returns (ok: bool)
    requires Renderable(item) && length <= INT_MAX && (length < 0 || buffer.Length == length)
    modifies buffer
    ensures ok <==> Complete(item) && length >= |RenderValue(item, format, 0)| + 2
    ensures ok ==> IsText(buffer, RenderValue(item, format, 0))
  {
    if length < 0 {
      return false;
    }
    var p := new PrintBuffer(buffer, true, format, true);
    ok := p.PrintValue(item);
    assert "" + RenderValue(item, format, 0) == RenderValue(item, format, 0);
  }

  const DEFAULT_BUFFER_SIZE: nat := 256

  /** `print`, behind `cJSON_Print` and `cJSON_PrintUnformatted`: the result is cut to size. */
  method Print(item: Value, format: bool, reallocate: bool) returns (r: array?<char>)
    requires Renderable(item)
    ensures r != null <==> Complete(item) && |RenderValue(item, format, 0)| + 2 <= INT_MAX
    ensures r != null ==> fresh(r) && r[..] == RenderValue(item, format, 0) + [NUL]
  {
    ghost var text := RenderValue(item, format, 0);
    var start := new char[DEFAULT_BUFFER_SIZE];
    var p := new PrintBuffer(start, false, format, reallocate);
    var ok := p.PrintValue(item);
    if !ok {
      return null;
    }
    assert "" + text == text;
    RenderNulFree(item, format, 0);
    p.UpdateOffset(text);
    r := CutToSize(p.buffer, p.offset, reallocate, text);
  }

  /**
   The last step of `print`: the text and its NUL in a buffer of their own. The minimum that the
   copying branch takes of the two lengths is always the shorter one, the text with its NUL.
   */
  method CutToSize(buffer: array<char>, offset: nat, reallocate: bool, ghost text: string) returns (r: array<char>)
    requires IsText(buffer, text) && offset == |text|
    ensures fresh(r) && r[..] == text + [NUL]
  {
    r := new char[offset + 1];
    forall i | 0 <= i < offset + 1 {
      r[i] := buffer[i];
    }
    if !reallocate {
      r[offset] := NUL;
    }
    assert forall i :: 0 <= i < |text| ==> r[i] == buffer[..|text|][i];
  }

  /** The counting pass of `print_string_ptr`. */
  method CountEscapes(s: string) returns (escapes: nat)
    ensures escapes == |Escape(s)| - |s|
  {
    escapes := 0;
    for i := 0 to |s|
      invariant escapes == |Escape(s[..i])| - i
    {
      EscapeNext(s, i);
      var c := s[i];
      if c in {QUOTE, BACKSLASH, BACKSPACE, FORM_FEED, NEWLINE, RETURN, TAB} {
        escapes := escapes + 1;
      } else if c as int < 32 {
        escapes := escapes + 5;
      }
    }
    assert s[..|s|] == s;
  }

  lemma Regroup(before: string, text: string, more: string)
    ensures before + ([QUOTE] + text) + more == before + ([QUOTE] + (text + more))
    ensures before + ([QUOTE] + text) + more == before + ([QUOTE] + text + more)
  {}

  /** An element with the separator behind it. */
  function ItemText(items: seq<Value>, i: nat, format: bool, d: nat): string
    requires i < |items|
  {
    RenderValue(items[i], format, d) + if i + 1 == |items| then "" else Separator(format)
  }

  lemma ItemsFrom(items: seq<Value>, i: nat, format: bool, d: nat)
    requires i < |items|
    ensures RenderItems(items[i..], format, d) == ItemText(items, i, format, d) + RenderItems(items[i + 1..], format, d)
  {
    assert items[i..][1..] == items[i + 1..];
    Associative(RenderValue(items[i], format, d), Separator(format), RenderItems(items[i + 1..], format, d));
  }

  lemma RendersNothing(items: seq<Value>, format: bool, d: nat)
    requires items == []
    ensures RenderItems(items, format, d) == ""
  {}

  lemma ChildrenOf(v: Value)
    requires Renderable(v)
    ensures v.Array? ==> (Complete(v) <==> forall i :: 0 <= i < |v.items| ==> Complete(v.items[i]))
    ensures v.Array? ==> forall i :: 0 <= i < |v.items| ==> Renderable(v.items[i])
    ensures v.Object? ==> (Complete(v) <==> forall i :: 0 <= i < |v.members| ==> Complete(v.members[i].item))
    ensures v.Object? ==> forall i :: 0 <= i < |v.members| ==> IsCString(v.members[i].key) && Renderable(v.members[i].item)
  {}

  lemma ArrayText(v: Value, format: bool, depth: nat)
    requires v.Array?
    ensures RenderValue(v, format, depth) == (['['] + RenderItems(v.items, format, depth + 1)) + [']']
  {}

  /** A member with its line around it. */
  function MemberText(members: Members, i: nat, format: bool, d: nat): string
    requires i < |members|
  {
    RenderKey(members[i].key, format, d) + RenderValue(members[i].item, format, d) + RenderEnd(i + 1 == |members|, format)
  }

  lemma MembersFrom(members: Members, i: nat, format: bool, d: nat)
    requires i < |members|
    ensures RenderMembers(members[i..], format, d) == MemberText(members, i, format, d) + RenderMembers(members[i + 1..], format, d)
  {
    assert members[i..][1..] == members[i + 1..];
  }

  lemma NoMembers(members: Members, format: bool, d: nat)
    requires members == []
    ensures RenderMembers(members, format, d) == ""
  {}

  /** Indentation and closing brace. */
  lemma ObjectText(v: Value, format: bool, depth: nat)
    requires v.Object?
    ensures RenderValue(v, format, depth) ==
              ((if format then "{\n" else "{") + RenderMembers(v.members, format, depth + 1)) + CloseText(format, depth)
  {
    Associative((if format then "{\n" else "{") + RenderMembers(v.members, format, depth + 1),
           if format then Tabs(depth) else "", "}");
  }

  lemma Join(before: string, open: string, whole: string, close: string)
    ensures before + open + whole + close == before + (open + whole + close)
  {}

  // ---- Escaping, from the front -------------------------------------------------------------

  lemma EscapeStep(s: string)
    requires s != []
    ensures Escape(s) == EscapeChar(s[0]) + Escape(s[1..])
  {}

  lemma {:induction false} EscapeSplits(s: string, i: nat)
    requires i <= |s|
    ensures Escape(s) == Escape(s[..i]) + Escape(s[i..])
  {
    if i == 0 {
      assert s[..0] == [] && s[0..] == s;
      assert Escape([]) == [];
      hide Escape;
    } else {
      hide *;
      EscapeSplits(s[1..], i - 1);
      assert s[1..][..i - 1] == s[..i][1..];
      assert s[1..][i - 1..] == s[i..];
      EscapeStep(s);
      EscapeStep(s[..i]);
      Associative(EscapeChar(s[0]), Escape(s[..i][1..]), Escape(s[i..]));
    }
  }

  /** The pieces of a key, written one behind the other. */
  lemma KeyText(before: string, key: string, format: bool, depth: nat)
    ensures var colon := if format then ":\t" else ":";
            (if format then before + Tabs(depth) else before) + RenderString(key) + colon
            == before + RenderKey(key, format, depth)
  {
    var colon := if format then ":\t" else ":";
    hide RenderString;
    if format {
      Associative(before, Tabs(depth), RenderString(key));
      Associative(before, Tabs(depth) + RenderString(key), colon);
    } else {
      Associative(before, RenderString(key), colon);
      assert "" + RenderString(key) == RenderString(key);
    }
  }

  lemma QuotedNulFree(key: string)
    requires IsCString(key)
    ensures NulFree(RenderString(key))
  {
    EscapeNulFree(key);
  }

  lemma NothingToEscape(s: string)
    ensures s[..0] == [] && s[0..] == s && s[|s|..] == [] && Escape([]) == []
  {}

  lemma QuotedText(s: string)
    ensures [QUOTE] + Escape(s) + [QUOTE, NUL] == RenderString(s) + [NUL]
  {}

  lemma EscapeNext(s: string, i: nat)
    requires i < |s|
    ensures Escape(s[..i + 1]) == Escape(s[..i]) + EscapeChar(s[i])
    ensures |Escape(s[i..])| == |EscapeChar(s[i])| + |Escape(s[i + 1..])|
  {
    assert s[i..][1..] == s[i + 1..];
    EscapeSplits(s[..i + 1], i);
    assert s[..i + 1][..i] == s[..i] && s[..i + 1][i..] == [s[i]];
    assert Escape([s[i]]) == EscapeChar(s[i]) + Escape([]);
  }

  lemma {:induction false} NothingEscaped(s: string)
    requires |Escape(s)| == |s|
    ensures Escape(s) == s
  {
    if s != [] {
      assert |Escape(s[1..])| >= |s[1..]|;
      NothingEscaped(s[1..]);
    }
  }
}

/**
 The parser as it runs: a cursor over a NUL-terminated buffer and a nesting depth. It is proved to
 compute the function of `Parse`, to stay inside the buffer, and to write string output only inside
 the memory that the first pass over the string asked for.
 */
module Parser {
  import opened CString
  import opened Digits
  import opened Json
  import opened Render
  import opened Parse
  import opened Truncated

  // ---- The size computed for a string -------------------------------------------------------

  /** Escapes that the first pass sees start before position `i`. */
  function EscapesBefore(s: string, i: int): (r: nat)
    ensures i <= 0 ==> r == 0
  {
    if i <= 0 || s == [] || s[0] == QUOTE then 0
    else if s[0] == BACKSLASH then 1 + (if |s| < 2 then 0 else EscapesBefore(s[2..], i - 2))
    else EscapesBefore(s[1..], i - 1)
  }

  /** One byte that is no backslash starts no escape. */
  lemma {:induction false} NoEscapeAt(s: string, i: nat)
    requires i < |s| && s[i] != BACKSLASH
    ensures EscapesBefore(s, i + 1) == EscapesBefore(s, i)
    decreases i
  {
    if i > 0 && s[0] != QUOTE {
      if s[0] == BACKSLASH {
        if i >= 2 { NoEscapeAt(s[2..], i - 2); }
      } else {
        NoEscapeAt(s[1..], i - 1);
      }
    }
  }

  /** Escapes do not overlap: of two neighbouring bytes at most one starts one. */
  lemma {:induction false} OneEscapePerTwo(s: string, i: int)
    ensures EscapesBefore(s, i + 1) <= EscapesBefore(s, i) + 1
    ensures EscapesBefore(s, i + 2) <= EscapesBefore(s, i) + 1
    decreases |s|
  {
    if s != [] && s[0] != QUOTE {
      if s[0] == BACKSLASH {
        if |s| >= 2 { OneEscapePerTwo(s[2..], i - 2); }
      } else {
        OneEscapePerTwo(s[1..], i - 1);
      }
    }
  }

  lemma {:induction false} HalfAreEscapes(s: string, i: nat, pairs: nat)
    ensures EscapesBefore(s, i + 2 * pairs) <= EscapesBefore(s, i) + pairs
  {
    if pairs > 0 {
      HalfAreEscapes(s, i, pairs - 1);
      OneEscapePerTwo(s, i + 2 * (pairs - 1));
    }
  }

  /** The first pass stops at the quote, so nothing starts there. */
  lemma {:induction false} NoEscapeAtClose(s: string)
    requires FindClose(s).Some?
    ensures EscapesBefore(s, FindClose(s).value + 1) == EscapesBefore(s, FindClose(s).value)
  {
    NoEscapeAt(s, FindClose(s).value);
  }

  // ---- Splitting the passes into steps ------------------------------------------------------

  /** What is left of the second pass at position `i`, which may be one past the closing quote. */
  function UnescapeFrom(s: string, close: nat, i: nat): Option<string>
    requires close < |s| && i <= close + 1
  {
    if i >= close then Some("") else Unescape(s[i..], close - i)
  }

  lemma PrependTwice(a: string, b: string, c: Option<string>)
    ensures Prepend(a, Prepend(b, c)) == Prepend(a + b, c)
  {
    if c.Some? { assert a + (b + c.value) == (a + b) + c.value; }
  }

  lemma StartsWhole(s: string, close: nat)
    requires close < |s|
    ensures forall bytes: string :: bytes == [] ==> Prepend(bytes, UnescapeFrom(s, close, 0)) == Unescape(s, close)
  {
    assert s[0..] == s;
    var all := Unescape(s, close);
    if all.Some? { assert [] + all.value == all.value; }
  }

  /** The bytes one step of the second pass writes, and how far it moves. */
  datatype StringStep = BadStep | StringStep(bytes: string, length: nat)

  function NextStep(s: string, close: nat, i: nat): (r: StringStep)
    requires i < close < |s|
    ensures r.StringStep? ==> 1 <= |r.bytes| <= 4 && i + r.length <= close + 1 && r.length > 0
  {
    if s[i] != BACKSLASH then StringStep([s[i]], 1)
    else if s[i + 1] == 'u' then
      match Utf16Literal(s[i..], close - i)
      case BadLiteral => BadStep
      case Literal(bytes, n) => StringStep(bytes, n)
    else
      match SimpleEscape(s[i + 1])
      case None => BadStep
      case Some(c) => StringStep([c], 2)
  }

  /** Where the second pass stops when it starts at `i`: at the closing quote or one byte behind it. */
  function SecondPassEnd(s: string, close: nat, i: nat): (r: Option<nat>)
    requires i <= close + 1 && close < |s|
    ensures r.Some? ==> close <= r.value <= close + 1
    decreases close + 1 - i
  {
    if i >= close then Some(i)
    else
      match NextStep(s, close, i)
      case BadStep => None
      case StringStep(_, n) => SecondPassEnd(s, close, i + n)
  }

  lemma UnescapeSteps(s: string, close: nat, i: nat)
    requires i < close < |s|
    ensures var step := NextStep(s, close, i);
            UnescapeFrom(s, close, i) ==
              if step.BadStep? then None else Prepend(step.bytes, UnescapeFrom(s, close, i + step.length))
  {
    var step := NextStep(s, close, i);
    var t := s[i..];
    if step.StringStep? && i + step.length <= close {
      assert t[step.length..] == s[i + step.length..];
    }
  }

  /** Each step writes no more bytes than it passes, not counting the escapes it passes. */
  lemma StepFits(s: string, close: nat, i: nat)
    requires i < close < |s| && NextStep(s, close, i).StringStep?
    ensures var step := NextStep(s, close, i);
            |step.bytes| + EscapesBefore(s, i + step.length) <= step.length + EscapesBefore(s, i)
  {
    var step := NextStep(s, close, i);
    if s[i] != BACKSLASH {
      NoEscapeAt(s, i);
    } else if s[i + 1] != 'u' {
      HalfAreEscapes(s, i, 1);
    } else if step.length == 6 {
      HalfAreEscapes(s, i, 3);
      assert |step.bytes| <= 3;
    } else {
      HalfAreEscapes(s, i, 6);
    }
  }

  // ---- The parse buffer ---------------------------------------------------------------------

  class ParseBuffer {
    const content: string
    var offset: nat
    var depth: nat

    /** The cursor never passes the final NUL, and nesting stays within the limit. */
    ghost predicate Valid()
      reads this
    {
      Terminated(content) && offset < |content| && depth <= NESTING_LIMIT
    }

    /** What has not been read yet. */
    ghost function Rest(): (r: string)
      reads this
      requires Valid()
      ensures Terminated(r)
    {
      content[offset..]
    }

    constructor (content: string)
      requires Terminated(content)
      ensures this.content == content && offset == 0
      ensures Valid() && Rest() == content && depth == 0
    {
      this.content := content;
      this.offset := 0;
      this.depth := 0;
    }

    /** One byte forward. */
    method Advance(n: nat)
      requires Valid() && offset + n < |content|
      modifies this`offset
      ensures Valid() && Rest() == old(Rest())[n..]
    {
      offset := offset + n;
    }

    /** `buffer_skip_whitespace`. */
    method SkipBlanks()
      requires Valid()
      modifies this`offset
      ensures Valid() && offset >= old(offset)
      ensures Rest() == SkipWhitespace(old(Rest()))
    {
      ghost var start := Rest();
      while offset < |content| && content[offset] as int <= 32
        invariant old(offset) <= offset <= |content|
        invariant offset < |content| ==> SkipWhitespace(content[offset..]) == SkipWhitespace(start)
        invariant offset == |content| ==> SkipWhitespace(start) == content[|content| - 1..]
      {
        assert content[offset..][1..] == content[offset + 1..];
        offset := offset + 1;
      }
      if offset == |content| {
        offset := offset - 1;
      }
    }

    /** The first pass of `parse_string`: the closing quote, and how many escapes were skipped. */
    method FindEnd(start: nat) returns (ok: bool, end: nat, skipped: nat)
      requires Valid() && start < |content|
      ensures ok <==> FindClose(content[start..]).Some?
      ensures ok ==> start <= end < |content| - 1 && FindClose(content[start..]) == Some(end - start)
      ensures ok ==> skipped == EscapesBefore(content[start..], end - start)
    {
      hide FindClose, EscapesBefore;
      ghost var s := content[start..];
      ghost var close := FindClose(s);
      end := start;
      skipped := 0;
      while end < |content| && content[end] != QUOTE
        invariant start <= end <= |content|
        invariant close == Further(FindClose(content[end..]), end - start)
        invariant close.Some? ==>
                    EscapesBefore(s, close.value) == skipped + EscapesBefore(content[end..], close.value - (end - start))
        decreases |content| - end
      {
        if content[end] == BACKSLASH {
          if end + 1 >= |content| {
            return false, end, skipped;
          }
          ClosePasses(content, end, 2, if close.Some? then close.value - (end - start) else 0);
          skipped := skipped + 1;
          end := end + 1;
        } else {
          ClosePasses(content, end, 1, if close.Some? then close.value - (end - start) else 0);
        }
        end := end + 1;
      }
      CloseStops(content, end);
      ok := end < |content|;
    }

    /**
     The second pass of `parse_string`. It may take the closing quote for an escaped one and then ends
     one byte behind it, but its output, with the NUL, always fits what the first pass asked for.
     */
    method SecondPass(start: nat, end: nat, skipped: nat) returns (ok: bool, text: string, input: nat)
      requires Valid() && start <= end < |content| && FindClose(content[start..]) == Some(end - start)
      requires skipped == EscapesBefore(content[start..], end - start)
      ensures Unescape(content[start..], end - start).Some? <==> ok
      ensures ok ==> text == UpToNul(Unescape(content[start..], end - start).value)
      ensures start <= input <= end + 1 && (!ok ==> input < end)
      ensures SecondPassEnd(content[start..], end - start, 0) == if ok then Some(input - start) else None
    {
      hide Unescape, UnescapeFrom, EscapesBefore, FindClose, NextStep;
      ghost var s, close := content[start..], end - start;
      MonotoneEscapes(s, 0, close);
      StartsWhole(s, close);
      var output := new char[(end - start + 1) - skipped + 1];
      var out: nat := 0;
      input := start;
      text := "";
      while input < end
        invariant start <= input <= end + 1
        invariant out + EscapesBefore(s, input - start) <= input - start
        invariant out + 1 <= output.Length
        invariant Unescape(s, close) == Prepend(output[..out], UnescapeFrom(s, close, input - start))
        invariant SecondPassEnd(s, close, 0) == SecondPassEnd(s, close, input - start)
      {
        ghost var at := input - start;
        var step := NextStep(content[start..], end - start, input - start);
        UnescapeSteps(s, close, at);
        if step.BadStep? {
          return false, text, input;
        }
        StepFits(s, close, at);
        PrependTwice(output[..out], step.bytes, UnescapeFrom(s, close, at + step.length));
        MonotoneEscapes(s, at + step.length, close);
        WriteBytes(output, out, step.bytes);
        out := out + |step.bytes|;
        input := input + step.length;
      }
      UnescapeEnds(s, close, input - start);
      output[out] := NUL;
      text := UpToNul(output[..out]);
      ok := true;
    }

    /** `parse_string`. */
    method ReadString() returns (ok: bool, text: string)
      requires Valid()
      modifies this`offset
      ensures ok <==> ParseString(old(Rest())).Success?
      ensures ok ==> Valid() && offset > old(offset)
      ensures ok ==> Success(text, Rest()) == ParseString(old(Rest()))
      ensures !ok ==> offset <= |content| && (offset == |content| <==> ParseString(old(Rest())).overrun)
    {
      hide Unescape, EscapesBefore, FindClose;
      text := "";
      var start := offset + 1;
      if content[offset] != QUOTE {
        offset := start;
        return false, text;
      }
      assert content[start..] == Rest()[1..];
      var end, skipped;
      ok, end, skipped := FindEnd(start);
      if !ok {
        offset := start;
        return;
      }
      assert Rest()[(end - start) + 2..] == content[end + 1..];
      var input;
      ok, text, input := SecondPass(start, end, skipped);
      offset := if ok then end + 1 else input;
    }

    /** The copying loop of `parse_number`: at most 63 bytes that may belong to a number. */
    method CopyNumber() returns (text: string)
      requires Valid()
      ensures text == NumberText(Rest(), 63)
      ensures offset + |text| < |content|
    {
      hide NumberText;
      text := "";
      var i: nat := 0;
      assert !IsNumberChar(content[|content| - 1]);
      while i < 63 && offset + i < |content| && IsNumberChar(content[offset + i])
        invariant i <= 63 && offset + i < |content|
        invariant text == content[offset..offset + i]
        invariant forall j :: offset <= j < offset + i ==> IsNumberChar(content[j])
        decreases 63 - i
      {
        text := text + [content[offset + i]];
        i := i + 1;
      }
      NumberTextIs(content, offset, i, 63);
    }

    /** `parse_number`. */
    method ReadNumber() returns (ok: bool, v: Value)
      requires Valid()
      modifies this`offset
      ensures ok <==> ParseNumber(old(Rest())).Success?
      ensures ok ==> Valid() && offset > old(offset)
      ensures ok ==> Success(v, Rest()) == ParseNumber(old(Rest()))
      ensures !ok ==> offset == old(offset) && !ParseNumber(old(Rest())).overrun
    {
      hide StringToDouble, NumberText;
      var text := CopyNumber();
      var d := StringToDouble(text);
      v := Number(d.value);
      ok := d.end != 0;
      if ok {
        assert Rest()[d.end..] == content[offset + d.end..];
        offset := offset + d.end;
      }
    }

    /** `can_read` and `strncmp`: does the input go on with `word`? */
    method Sees(word: string) returns (b: bool)
      requires Valid()
      ensures b <==> StartsWith(Rest(), word)
    {
      b := offset + |word| <= |content| && content[offset..offset + |word|] == word;
      if offset + |word| <= |content| {
        assert Rest()[..|word|] == content[offset..offset + |word|];
      }
    }

    /** `parse_value`. */
    method ReadValue() returns (ok: bool, v: Value)
      requires Valid()
      modifies this
      ensures ok <==> ParseValue(old(Rest()), old(depth)).Success?
      ensures ok ==> Valid() && depth == old(depth) && offset > old(offset)
      ensures ok ==> Success(v, Rest()) == ParseValue(old(Rest()), old(depth))
      ensures !ok ==> offset <= |content| && depth <= NESTING_LIMIT
      ensures !ok ==> (offset == |content| <==> ParseValue(old(Rest()), old(depth)).overrun)
      ensures !ok ==> (offset == |content| <==> StopsBeforeName(old(Rest()), old(depth)))
      decreases |content| - offset, 1
    {
      hide StopsBeforeName;
      OverrunExactly(Rest(), depth);
      var isNull := Sees("null");
      var isFalse := Sees("false");
      var isTrue := Sees("true");
      v := Invalid;
      if isNull {
        Advance(4);
        return true, Null;
      }
      if isFalse {
        Advance(5);
        return true, False;
      }
      if isTrue {
        Advance(4);
        return true, True;
      }
      var c := content[offset];
      assert c == Rest()[0];
      if c == QUOTE {
        var text;
        ok, text := ReadString();
        v := String(text);
      } else if c == '-' || IsDigit(c) {
        ok, v := ReadNumber();
      } else if c == '[' {
        ok, v := ReadArray();
      } else if c == '{' {
        ok, v := ReadObject();
      } else {
        ok := false;
      }
    }

    /** One turn of the loop in `parse_array`, from the byte in front of the element to the one behind it. */
    method ReadItem() returns (ok: bool, item: Value)
      requires Terminated(content) && offset + 1 < |content| && depth <= NESTING_LIMIT
      modifies this
      ensures ok ==> Valid() && depth == old(depth) && offset > old(offset) + 1
      ensures !ok ==> offset <= |content| && depth <= NESTING_LIMIT
      ensures var all := ParseItems(content[old(offset) + 1..], old(depth));
              && (!ok ==> all.Failure? && (all.overrun <==> offset == |content|))
              && (ok ==> all == TurnOf(content, offset, depth, item))
      decreases |content| - offset - 1, 2
    {
      hide ParseValue, ParseItems, SkipWhitespace;
      offset := offset + 1;
      ItemsStep(Rest(), depth);
      SkipBlanks();
      ok, item := ReadValue();
      if !ok {
        return;
      }
      SkipBlanks();
      assert Rest()[1..] == content[offset + 1..];
    }

    /** The loop of `parse_array`, entered on the first element and left on the closing bracket. */
    method ReadItems() returns (ok: bool, items: seq<Value>)
      requires Valid() && offset > 0
      modifies this
      ensures ok <==> ParseItems(old(Rest()), old(depth)).Success?
      ensures ok ==> Valid() && depth == old(depth) && offset > old(offset)
      ensures ok ==> content[offset] == ']' && offset + 1 < |content|
      ensures ok ==> Success(items, content[offset + 1..]) == ParseItems(old(Rest()), old(depth))
      ensures !ok ==> offset <= |content| && depth <= NESTING_LIMIT
      ensures !ok ==> (offset == |content| <==> ParseItems(old(Rest()), old(depth)).overrun)
      decreases |content| - offset, 3
    {
      hide ParseItems;
      ghost var all := ParseItems(Rest(), depth);
      items := [];
      offset := offset - 1;
      ExtendByNothing(all);
      while true
        invariant Terminated(content) && old(offset) - 1 <= offset < |content| - 1 && depth == old(depth) <= NESTING_LIMIT
        invariant all == Extend(items, ParseItems(content[offset + 1..], depth))
        decreases |content| - offset
      {
        var item;
        ok, item := ReadItem();
        if !ok {
          return;
        }
        if content[offset] != ',' {
          items := items + [item];
          break;
        }
        ExtendTwice(items, [item], ParseItems(content[offset + 1..], depth));
        items := items + [item];
      }
      ok := content[offset] == ']';
    }

    /** The elements behind the opening bracket, if any, and the closing one. */
    method ReadItemsThroughEnd() returns (ok: bool, items: seq<Value>)
      requires Valid() && offset > 0
      modifies this
      ensures ok <==> ItemsThroughEnd(old(Rest()), old(depth)).Success?
      ensures ok ==> Valid() && depth == old(depth) && offset > old(offset)
      ensures ok ==> Success(items, Rest()) == ItemsThroughEnd(old(Rest()), old(depth))
      ensures !ok ==> offset <= |content| && depth <= NESTING_LIMIT
      ensures !ok ==> (offset == |content| <==> ItemsThroughEnd(old(Rest()), old(depth)).overrun)
      decreases |content| - offset, 4
    {
      hide ParseItems;
      ok, items := true, [];
      if content[offset] != ']' {
        ok, items := ReadItems();
      }
      offset := if ok then offset + 1 else offset;
    }

    /** `parse_array`. */
    method ReadArray() returns (ok: bool, v: Value)
      requires Valid() && content[offset] == '['
      modifies this
      ensures ok <==> ParseArray(old(Rest()), old(depth)).Success?
      ensures ok ==> Valid() && depth == old(depth) && offset > old(offset)
      ensures ok ==> Success(v, Rest()) == ParseArray(old(Rest()), old(depth))
      ensures !ok ==> offset <= |content| && depth <= NESTING_LIMIT
      ensures !ok ==> (offset == |content| <==> ParseArray(old(Rest()), old(depth)).overrun)
      ensures !ok ==> (offset == |content| <==> StopsBeforeName(old(Rest()), old(depth)))
      decreases |content| - offset, 0
    {
      hide ParseArray, ItemsThroughEnd, SkipWhitespace, StopsBeforeName;
      v := Invalid;
      ContainerOverrun(Rest(), depth);
      if depth >= NESTING_LIMIT {
        TooDeep(Rest(), depth);
        return false, v;
      }
      ArrayStep(Rest(), depth);
      depth := depth + 1;
      Advance(1);
      SkipBlanks();
      var items;
      ok, items := ReadItemsThroughEnd();
      depth := if ok then depth - 1 else depth;
      v := Array(items);
    }

    /** The name of a member and its colon. */
    method ReadKey() returns (ok: bool, key: string)
      requires Valid()
      modifies this`offset
      ensures ok <==> ParseKey(old(Rest())).Success?
      ensures ok ==> Valid() && offset > old(offset)
      ensures ok ==> Success(key, Rest()) == ParseKey(old(Rest()))
      ensures !ok ==> offset <= |content| && (offset == |content| <==> ParseKey(old(Rest())).overrun)
    {
      hide ParseString, SkipWhitespace;
      SkipBlanks();
      ok, key := ReadString();
      if !ok {
        return;
      }
      SkipBlanks();
      assert content[offset] == Rest()[0];
      if content[offset] != ':' {
        return false, key;
      }
      Advance(1);
      SkipBlanks();
    }

    /** One turn of the loop in `parse_object`, from the byte in front of the member to the one behind it. */
    method ReadMember() returns (ok: bool, member: Entry<Value>)
      requires Terminated(content) && offset + 1 < |content| && depth <= NESTING_LIMIT
      modifies this
      ensures ok ==> Valid() && depth == old(depth) && offset > old(offset) + 1
      ensures !ok ==> offset <= |content| && depth <= NESTING_LIMIT
      ensures var all := ParseMembers(content[old(offset) + 1..], old(depth));
              && (!ok ==> all.Failure? && (all.overrun <==> offset == |content|))
              && (ok ==> all == MemberTurnOf(content, offset, depth, member))
      decreases |content| - offset - 1, 2
    {
      hide ParseValue, ParseMembers, ParseKey, SkipWhitespace;
      member := Entry("", Invalid);
      offset := offset + 1;
      MembersStep(Rest(), depth);
      var key;
      ok, key := ReadKey();
      if !ok {
        return;
      }
      var item;
      ok, item := ReadValue();
      if !ok {
        return;
      }
      SkipBlanks();
      assert Rest()[1..] == content[offset + 1..];
      member := Entry(key, item);
    }

    /** The loop of `parse_object`, entered on the first member and left on the closing brace. */
    method ReadMembers() returns (ok: bool, members: Members)
      requires Valid() && offset > 0
      modifies this
      ensures ok <==> ParseMembers(old(Rest()), old(depth)).Success?
      ensures ok ==> Valid() && depth == old(depth) && offset > old(offset)
      ensures ok ==> content[offset] == '}' && offset + 1 < |content|
      ensures ok ==> Success(members, content[offset + 1..]) == ParseMembers(old(Rest()), old(depth))
      ensures !ok ==> offset <= |content| && depth <= NESTING_LIMIT
      ensures !ok ==> (offset == |content| <==> ParseMembers(old(Rest()), old(depth)).overrun)
      decreases |content| - offset, 3
    {
      hide ParseMembers;
      ghost var all := ParseMembers(Rest(), depth);
      members := [];
      offset := offset - 1;
      ExtendByNothing(all);
      while true
        invariant Terminated(content) && old(offset) - 1 <= offset < |content| - 1 && depth == old(depth) <= NESTING_LIMIT
        invariant all == Extend(members, ParseMembers(content[offset + 1..], depth))
        decreases |content| - offset
      {
        var member;
        ok, member := ReadMember();
        if !ok {
          return;
        }
        if content[offset] != ',' {
          members := members + [member];
          break;
        }
        ExtendTwice(members, [member], ParseMembers(content[offset + 1..], depth));
        members := members + [member];
      }
      ok := content[offset] == '}';
    }

    /** The members behind the opening brace, if any, and the closing one. */
    method ReadMembersThroughEnd() returns (ok: bool, members: Members)
      requires Valid() && offset > 0
      modifies this
      ensures ok <==> MembersThroughEnd(old(Rest()), old(depth)).Success?
      ensures ok ==> Valid() && depth == old(depth) && offset > old(offset)
      ensures ok ==> Success(members, Rest()) == MembersThroughEnd(old(Rest()), old(depth))
      ensures !ok ==> offset <= |content| && depth <= NESTING_LIMIT
      ensures !ok ==> (offset == |content| <==> MembersThroughEnd(old(Rest()), old(depth)).overrun)
      decreases |content| - offset, 4
    {
      hide ParseMembers;
      ok, members := true, [];
      if content[offset] != '}' {
        ok, members := ReadMembers();
      }
      offset := if ok then offset + 1 else offset;
    }

    /** `parse_object`. */
    method ReadObject() returns (ok: bool, v: Value)
      requires Valid() && content[offset] == '{'
      modifies this
      ensures ok <==> ParseObject(old(Rest()), old(depth)).Success?
      ensures ok ==> Valid() && depth == old(depth) && offset > old(offset)
      ensures ok ==> Success(v, Rest()) == ParseObject(old(Rest()), old(depth))
      ensures !ok ==> offset <= |content| && depth <= NESTING_LIMIT
      ensures !ok ==> (offset == |content| <==> ParseObject(old(Rest()), old(depth)).overrun)
      ensures !ok ==> (offset == |content| <==> StopsBeforeName(old(Rest()), old(depth)))
      decreases |content| - offset, 0
    {
      hide ParseObject, MembersThroughEnd, SkipWhitespace, StopsBeforeName;
      v := Invalid;
      ContainerOverrun(Rest(), depth);
      if depth >= NESTING_LIMIT {
        TooDeep(Rest(), depth);
        return false, v;
      }
      ObjectStep(Rest(), depth);
      depth := depth + 1;
      Advance(1);
      SkipBlanks();
      var members;
      ok, members := ReadMembersThroughEnd();
      depth := if ok then depth - 1 else depth;
      v := Object(members);
    }

    /** `skip_utf8_bom`, at the start of the buffer. */
    method SkipMark()
      requires Valid() && offset == 0
      modifies this`offset
      ensures Valid() && Rest() == SkipByteOrderMark(content)
    {
      if offset + 4 < |content| && content[..3] == BYTE_ORDER_MARK {
        offset := 3;
      }
    }
  }

  /** The bytes of a number up to the first other byte, or to the limit. */
  lemma {:induction false} NumberTextIs(content: string, at: nat, n: nat, limit: nat)
    requires n <= limit && at + n < |content|
    requires forall j :: at <= j < at + n ==> IsNumberChar(content[j])
    requires n == limit || !IsNumberChar(content[at + n])
    ensures NumberText(content[at..], limit) == content[at..at + n]
    decreases n
  {
    assert content[at..][1..] == content[at + 1..];
    if n > 0 {
      NumberTextIs(content, at + 1, n - 1, limit - 1);
      assert content[at..at + n] == [content[at]] + content[at + 1..at + n];
    }
  }

  lemma ExtendByNothing<T>(r: Result<seq<T>>)
    ensures forall first: seq<T> :: first == [] ==> Extend(first, r) == r
  {
    if r.Success? { assert [] + r.value == r.value; }
  }

  lemma ExtendTwice<T>(a: seq<T>, b: seq<T>, r: Result<seq<T>>)
    ensures Extend(a, Extend(b, r)) == Extend(a + b, r)
  {
    if r.Success? { assert a + (b + r.value) == (a + b) + r.value; }
  }

  /** What the element loop yields when `item` has been read and the cursor is at `offset`. */
  function TurnOf(content: string, offset: nat, depth: nat, item: Value): Result<seq<Value>>
    requires Terminated(content) && offset < |content|
  {
    if content[offset] == ',' then Extend([item], ParseItems(content[offset + 1..], depth))
    else if content[offset] == ']' then Success([item], content[offset + 1..])
    else Failure(false)
  }

  function MemberTurnOf(content: string, offset: nat, depth: nat, member: Entry<Value>): Result<Members>
    requires Terminated(content) && offset < |content|
  {
    if content[offset] == ',' then Extend([member], ParseMembers(content[offset + 1..], depth))
    else if content[offset] == '}' then Success([member], content[offset + 1..])
    else Failure(false)
  }

  lemma UnescapeEnds(s: string, close: nat, i: nat)
    requires close < |s| && close <= i <= close + 1
    ensures UnescapeFrom(s, close, i) == Some("")
    ensures forall bytes: string :: Prepend(bytes, UnescapeFrom(s, close, i)) == Some(bytes)
  {
    forall bytes: string ensures bytes + "" == bytes {}
  }

  method WriteBytes(output: array<char>, at: nat, bytes: string)
    requires at + |bytes| <= output.Length
    modifies output
    ensures output[..at + |bytes|] == old(output[..at]) + bytes
  {
    ghost var before := output[..at];
    for i := 0 to |bytes|
      invariant output[..at + i] == before + bytes[..i]
    {
      output[at + i] := bytes[i];
      assert output[..at + i + 1] == output[..at + i] + [bytes[i]];
      assert bytes[..i + 1] == bytes[..i] + [bytes[i]];
    }
    assert bytes[..|bytes|] == bytes;
  }

  /** Fewer than all escapes lie in front of a position at most one past the quote. */
  lemma MonotoneEscapes(s: string, i: nat, close: nat)
    requires FindClose(s) == Some(close) && i <= close + 1
    ensures EscapesBefore(s, close) - EscapesBefore(s, i) <= close + 1 - i
    ensures EscapesBefore(s, close) <= close
  {
    hide EscapesBefore, FindClose;
    NoEscapeAtClose(s);
    EscapesGrow(s, i, close + 1 - i);
    EscapesGrow(s, 0, close);
  }

  lemma {:induction false} EscapesGrow(s: string, i: nat, k: nat)
    ensures EscapesBefore(s, i + k) <= EscapesBefore(s, i) + k
  {
    if k > 0 {
      EscapesGrow(s, i, k - 1);
      OneEscapePerTwo(s, i + k - 1);
    }
  }

  /** One turn of the first pass: an escape of two bytes, or one other byte. */
  lemma ClosePasses(content: string, end: nat, length: nat, n: int)
    requires end + length <= |content| && end < |content| && content[end] != QUOTE
    requires length == if content[end] == BACKSLASH then 2 else 1
    ensures FindClose(content[end..]) == Further(FindClose(content[end + length..]), length)
    ensures n > 0 ==> EscapesBefore(content[end..], n) == length - 1 + EscapesBefore(content[end + length..], n - length)
    ensures FindClose(content[end..]).Some? ==> FindClose(content[end..]).value > 0
  {
    assert content[end..][length..] == content[end + length..];
  }

  lemma CloseStops(content: string, end: nat)
    requires end <= |content| && (end < |content| ==> content[end] == QUOTE)
    ensures FindClose(content[end..]) == if end < |content| then Some(0) else None
    ensures EscapesBefore(content[end..], 0) == 0
  {
    if end == |content| { assert content[end..] == []; }
  }

  // ---- The public function ------------------------------------------------------------------

  /** What `cJSON_ParseWithOpts` hands to `parse_value`. */
  function FirstByteOf(text: string): (s: string)
    ensures Terminated(s)
  {
    SkipWhitespace(SkipByteOrderMark(text + [NUL]))
  }

  /**
   `cJSON_ParseWithOpts` on a C string, with the position it reports: behind the value, or where the
   error is. It never points behind the NUL, even when the cursor does.
   */
  method ParseWithOpts(text: string, requireNullTerminated: bool) returns (r: Option<Value>, end: nat)
    requires IsCString(text)
    ensures r == ParseText(text, requireNullTerminated)
    ensures end <= |text|
    ensures var first := ParseValue(FirstByteOf(text), 0);
            first.Success? ==>
              (text + [NUL])[end..] == if requireNullTerminated then SkipWhitespace(first.rest) else first.rest
    ensures requireNullTerminated && r.Some? ==> end == |text|
    ensures StopsBeforeName(FirstByteOf(text), 0) ==> r == None && end == |text|
  {
    hide ParseValue, SkipWhitespace, SkipByteOrderMark, StopsBeforeName;
    var buffer := new ParseBuffer(text + [NUL]);
    buffer.SkipMark();
    buffer.SkipBlanks();
    OverrunExactly(buffer.Rest(), 0);
    var ok, v := buffer.ReadValue();
    if ok && requireNullTerminated {
      buffer.SkipBlanks();
      ok := buffer.content[buffer.offset] == NUL;
      assert buffer.content[buffer.offset] == buffer.Rest()[0];
    }
    end := if buffer.offset < |buffer.content| then buffer.offset else |buffer.content| - 1;
    r := if ok then Some(v) else None;
  }

  lemma ContainerOverrun(s: string, depth: nat)
    requires Terminated(s)
    ensures s[0] == '[' ==> (ParseArray(s, depth) == Failure(true) <==> StopsBeforeName(s, depth))
    ensures s[0] == '{' ==> (ParseObject(s, depth) == Failure(true) <==> StopsBeforeName(s, depth))
  {
    hide ParseValue, ParseArray, ParseObject, StopsBeforeName;
    ValueByFirstByte(s, depth);
    OverrunExactly(s, depth);
  }

  // ---- What the two passes over a string can do ---------------------------------------------

  /** Whatever the input, the unescaped bytes and a NUL fit the size the first pass computed. */
  lemma {:induction false} OutputFits(s: string, close: nat, i: nat)
    requires FindClose(s) == Some(close) && i <= close + 1 && UnescapeFrom(s, close, i).Some?
    ensures |UnescapeFrom(s, close, i).value| + i + EscapesBefore(s, close) <= close + 1 + EscapesBefore(s, i)
    decreases close + 1 - i
  {
    hide Unescape, EscapesBefore, FindClose, NextStep;
    MonotoneEscapes(s, i, close);
    if i < close {
      var step := NextStep(s, close, i);
      UnescapeSteps(s, close, i);
      StepFits(s, close, i);
      OutputFits(s, close, i + step.length);
    } else {
      UnescapeEnds(s, close, i);
    }
  }

  lemma StringFits(s: string)
    requires FindClose(s).Some? && Unescape(s, FindClose(s).value).Some?
    ensures var close := FindClose(s).value;
            |Unescape(s, close).value| + 1 <= close + 2 - EscapesBefore(s, close)
  {
    StartsWhole(s, FindClose(s).value);
    assert s[0..] == s;
    OutputFits(s, FindClose(s).value, 0);
  }

  // ---- When the two passes agree ------------------------------------------------------------

  predicate FourHexDigits(s: string) {
    |s| >= 4 && forall i :: 0 <= i < 4 ==> HexValue(s[i]).Some?
  }

  /** Every `\u` in front of the closing quote, as the first pass sees it, has its four hexadecimal digits. */
  predicate DigitsFollow(s: string) {
    if s == [] || s[0] == QUOTE then true
    else if s[0] == BACKSLASH then |s| >= 2 && (s[1] == 'u' ==> FourHexDigits(s[2..])) && DigitsFollow(s[2..])
    else DigitsFollow(s[1..])
  }

  lemma PassesDigit(s: string)
    requires s != [] && HexValue(s[0]).Some? && FindClose(s).Some? && DigitsFollow(s)
    ensures FindClose(s).value >= 1 && DigitsFollow(s[1..])
    ensures FindClose(s[1..]) == Some(FindClose(s).value - 1)
  {}

  /** The first pass goes over four digits one by one. */
  lemma PassesDigits(s: string)
    requires FourHexDigits(s) && FindClose(s).Some? && DigitsFollow(s)
    ensures FindClose(s).value >= 4 && DigitsFollow(s[4..])
    ensures FindClose(s[4..]) == Some(FindClose(s).value - 4)
  {
    hide FindClose, DigitsFollow, HexValue;
    PassesDigit(s);
    assert s[1..][1..] == s[2..] && s[2..][1..] == s[3..] && s[3..][1..] == s[4..];
    PassesDigit(s[1..]);
    PassesDigit(s[2..]);
    PassesDigit(s[3..]);
  }

  /** The second pass steps from one place where the first pass stood to another. */
  lemma StepsTogether(s: string, close: nat)
    requires FindClose(s) == Some(close) && close > 0 && DigitsFollow(s) && NextStep(s, close, 0).StringStep?
    ensures var n := NextStep(s, close, 0).length;
            n <= close && FindClose(s[n..]) == Some(close - n) && DigitsFollow(s[n..])
  {
    hide Utf8, ParseHex4;
    assert s[0..] == s;
    if s[0] == BACKSLASH && s[1] == 'u' {
      PassesDigits(s[2..]);
      assert s[2..][4..] == s[6..];
      if NextStep(s, close, 0).length == 12 {
        PassesDigits(s[6..][2..]);
        assert s[6..][2..][4..] == s[12..];
      }
    }
  }

  lemma StepFromThere(s: string, close: nat, i: nat)
    requires i < close < |s|
    ensures NextStep(s, close, i) == NextStep(s[i..], close - i, 0)
  {
    assert s[i..][0..] == s[i..];
  }

  /** Then the second pass stops at the closing quote, wherever the escapes are. */
  lemma {:induction false} PassesAgree(s: string, close: nat, i: nat)
    requires close < |s| && i <= close && FindClose(s[i..]) == Some(close - i) && DigitsFollow(s[i..])
    ensures SecondPassEnd(s, close, i).Some? ==> SecondPassEnd(s, close, i) == Some(close)
    decreases close - i
  {
    hide NextStep, FindClose, DigitsFollow;
    if i < close {
      StepFromThere(s, close, i);
      var step := NextStep(s, close, i);
      if step.StringStep? {
        StepsTogether(s[i..], close - i);
        assert s[i..][step.length..] == s[i + step.length..];
        PassesAgree(s, close, i + step.length);
      }
    }
  }

  // ---- When they do not ---------------------------------------------------------------------

  /** An odd number of backslashes in front of the closing quote: read from here, the last one escapes the quote. */
  predicate OddRun(s: string, i: nat, close: nat)
    requires close < |s|
  {
    i < close && (close - i) % 2 == 1 && forall j :: i <= j < close ==> s[j] == BACKSLASH
  }

  /** A `\u` literal, as the second pass reads it from `i` on, ends inside the backslashes in front of the quote, at an odd distance. */
  predicate LiteralCutsRun(s: string, close: nat, i: nat)
    requires close < |s| && i <= close + 1
    decreases close + 1 - i
  {
    i < close &&
    match NextStep(s, close, i)
    case BadStep => false
    case StringStep(_, n) => (n >= 6 && OddRun(s, i + n, close)) || LiteralCutsRun(s, close, i + n)
  }

  lemma {:induction false} OddRunPassesQuote(s: string, close: nat, i: nat)
    requires close < |s| && s[close] == QUOTE && OddRun(s, i, close)
    ensures SecondPassEnd(s, close, i) == Some(close + 1)
    decreases close - i
  {
    assert SimpleEscape(QUOTE) == Some(QUOTE) && SimpleEscape(BACKSLASH) == Some(BACKSLASH);
    assert NextStep(s, close, i).StringStep? && NextStep(s, close, i).length == 2;
    if i + 1 < close { OddRunPassesQuote(s, close, i + 2); }
  }

  lemma FirstPassStep(s: string, close: nat)
    requires FindClose(s) == Some(close) && close > 0
    ensures |s| > close
    ensures var n := if s[0] == BACKSLASH then 2 else 1;
            n <= close && FindClose(s[n..]) == Some(close - n)
  {}

  /** Behind a byte that is no backslash, the first pass always stands. */
  lemma {:induction false} FirstPassStands(s: string, close: nat, i: nat)
    requires FindClose(s) == Some(close) && 0 < i <= close && s[i - 1] != BACKSLASH
    ensures FindClose(s[i..]) == Some(close - i)
    decreases |s|
  {
    var n := if s[0] == BACKSLASH then 2 else 1;
    QuoteAtClose(s, close);
    FirstPassStep(s, close);
    hide FindClose;
    if i > n {
      assert s[n..][i - n - 1] == s[i - 1];
      FirstPassStands(s[n..], close - n, i - n);
      assert s[n..][i - n..] == s[i..];
    }
  }

  lemma OddRunShifts(s: string, k: nat, i: nat, close: nat)
    requires k <= i <= close < |s|
    ensures OddRun(s[k..], i - k, close - k) <==> OddRun(s, i, close)
  {
    assert forall j :: k <= j <= close ==> s[k..][j - k] == s[j];
    if OddRun(s[k..], i - k, close - k) {
      forall j | i <= j < close ensures s[j] == BACKSLASH {
        assert s[k..][j - k] == BACKSLASH;
      }
    }
  }

  /** Where the first pass stands, the backslashes in front of the quote come in pairs. */
  lemma {:induction false} RunIsEven(s: string, close: nat)
    requires FindClose(s) == Some(close)
    ensures !OddRun(s, 0, close)
    decreases |s|
  {
    if close > 0 && s[0] == BACKSLASH {
      RunIsEven(s[2..], close - 2);
      OddRunShifts(s, 2, 2, close);
    }
  }

  lemma NotOddBehind(s: string, close: nat, i: nat)
    requires FindClose(s) == Some(close) && 0 < i <= close && s[i - 1] != BACKSLASH
    ensures !OddRun(s, i, close)
  {
    FirstPassStands(s, close, i);
    RunIsEven(s[i..], close - i);
    OddRunShifts(s, i, i, close);
  }

  lemma QuoteAtClose(s: string, close: nat)
    requires FindClose(s) == Some(close)
    ensures close < |s| && s[close] == QUOTE
  {}

  /** The second pass ends behind the quote exactly when a literal has cut the backslashes in front of it. */
  lemma {:induction false} PassesQuoteExactly(s: string, close: nat, i: nat)
    requires FindClose(s) == Some(close) && i <= close && !OddRun(s, i, close)
    ensures SecondPassEnd(s, close, i) == Some(close + 1) <==> LiteralCutsRun(s, close, i)
    decreases close - i
  {
    hide FindClose, NextStep, OddRun;
    if i < close {
      var step := NextStep(s, close, i);
      if step.StringStep? {
        var next := i + step.length;
        SmallStep(s, close, i);
        if step.length >= 6 && OddRun(s, next, close) {
          QuoteAtClose(s, close);
          OddRunPassesQuote(s, close, next);
        } else {
          PassesQuoteExactly(s, close, next);
        }
      }
    }
  }

  lemma OddRunGrows(s: string, i: nat, close: nat)
    requires i < close < |s| && s[i] == BACKSLASH
    ensures i + 1 == close ==> OddRun(s, i, close)
    ensures i + 2 <= close && s[i + 1] == BACKSLASH && OddRun(s, i + 2, close) ==> OddRun(s, i, close)
  {}

  /** Other steps than a literal do not get out of step in the run. */
  lemma SmallStep(s: string, close: nat, i: nat)
    requires FindClose(s) == Some(close) && i < close && !OddRun(s, i, close) && NextStep(s, close, i).StringStep?
    ensures var n := NextStep(s, close, i).length;
            i + n <= close && (n < 6 ==> !OddRun(s, i + n, close))
  {
    var n := NextStep(s, close, i).length;
    if n == 1 {
      NotOddBehind(s, close, i + 1);
    } else if n == 2 {
      OddRunGrows(s, i, close);
      if s[i + 1] != BACKSLASH { NotOddBehind(s, close, i + 2); }
    }
  }

  /** The two passes over a string part at the closing quote exactly then. */
  lemma PassesDisagreeExactly(s: string)
    requires FindClose(s).Some?
    ensures var close := FindClose(s).value;
            SecondPassEnd(s, close, 0) == Some(close + 1) <==> LiteralCutsRun(s, close, 0)
  {
    RunIsEven(s, FindClose(s).value);
    PassesQuoteExactly(s, FindClose(s).value, 0);
  }

  /** The passes can disagree: here the second one takes the closing quote for an escaped quote. */
  lemma QuoteTakenForEscaped()
    ensures var s := [BACKSLASH, 'u', '0', '0', 'x', BACKSLASH, BACKSLASH, QUOTE, NUL];
            && FindClose(s) == Some(7)
            && Unescape(s, 7) == Some([NUL, QUOTE])
  {
    var s := [BACKSLASH, 'u', '0', '0', 'x', BACKSLASH, BACKSLASH, QUOTE, NUL];
    var t := s[2..];
    assert t[1..][1..][1..] == [BACKSLASH, BACKSLASH, QUOTE, NUL];
    assert [BACKSLASH, BACKSLASH, QUOTE, NUL][2..] == [QUOTE, NUL];
    assert FindClose(t[1..][1..][1..]) == Some(2);
    assert t[0] == t[1..][0] == '0' && t[1..][1..][0] == 'x';
    assert FindClose(t[1..]) == Some(4);
    assert FindClose(t) == Some(5);
    assert s[2..6] == ['0', '0', 'x', BACKSLASH];
    assert s[6..] == [BACKSLASH, QUOTE, NUL];
    assert [QUOTE] + "" == [QUOTE] && [NUL] + [QUOTE] == [NUL, QUOTE];
    assert Unescape(s[6..], 1) == Some([QUOTE]);
  }

  /** ... and then stops one byte behind it. */
  lemma StopsBehindQuote()
    ensures SecondPassEnd([BACKSLASH, 'u', '0', '0', 'x', BACKSLASH, BACKSLASH, QUOTE, NUL], 7, 0) == Some(8)
  {
    var s := [BACKSLASH, 'u', '0', '0', 'x', BACKSLASH, BACKSLASH, QUOTE, NUL];
    assert s[0..] == s && s[2..6] == ['0', '0', 'x', BACKSLASH];
    assert NextStep(s, 7, 0).length == 6;
    assert NextStep(s, 7, 6) == StringStep([QUOTE], 2);
  }

  /** The smallest input that moves the cursor behind the NUL: a name is due at the end. */
  method CursorBehindNul() returns (buffer: ParseBuffer, ok: bool)
    ensures !ok && buffer.content == "{" + [NUL] && buffer.offset == |buffer.content|
  {
    assert ("{" + [NUL])[1..] == [NUL];
    buffer := new ParseBuffer("{" + [NUL]);
    assert buffer.Rest() == "{" + [NUL];
    assert ParseObject("{" + [NUL], 0) == Failure(true);
    var v;
    ok, v := buffer.ReadObject();
  }
}

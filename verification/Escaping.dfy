/**
 String literals against section 7 of RFC 8259: what is printed is, byte by byte, the shortest form the
 grammar has for it, and every form the grammar has is read back as the byte it stands for.
 */
module Escaping {
  import opened CString
  import opened Parse
  import opened Render
  import opened RoundTrip

  // ---- The forms of one byte ----------------------------------------------------------------

  /** The letters behind a backslash, by the code of the byte they stand for. */
  predicate ShortForm(letter: char, code: int) {
    || (letter == '"' && code == 0x22)
    || (letter == '\\' && code == 0x5C)
    || (letter == '/' && code == 0x2F)
    || (letter == 'b' && code == 0x08)
    || (letter == 'f' && code == 0x0C)
    || (letter == 'n' && code == 0x0A)
    || (letter == 'r' && code == 0x0D)
    || (letter == 't' && code == 0x09)
  }

  predicate Unescaped(code: int) {
    code >= 0x20 && code != 0x22 && code != 0x5C
  }

  /** `e` is a form of the byte `c`: itself, a letter behind a backslash, or four hexadecimal digits. */
  predicate FormOf(e: string, c: char) {
    var code := c as int;
    || (e == [c] && Unescaped(code))
    || (|e| == 2 && e[0] == '\\' && ShortForm(e[1], code))
    || (|e| == 6 && e[..4] == ['\\', 'u', '0', '0'] && code < 0x80
        && HexValue(e[4]).Some? && HexValue(e[5]).Some? && HexValue(e[4]).value * 16 + HexValue(e[5]).value == code)
  }

  lemma HexOfByte(code: nat)
    requires code < 0x80
    ensures code / 16 < 16 && HexValue(HexDigit(code / 16)) == Some(code / 16)
    ensures HexValue(HexDigit(code % 16)) == Some(code % 16)
  {}

  /** The printed form is one the grammar has, and none is shorter. */
  lemma PrintsShortest(c: char, e: string)
    requires 0 < c as int < 256
    ensures FormOf(EscapeChar(c), c)
    ensures FormOf(e, c) ==> |EscapeChar(c)| <= |e|
  {
    if c as int < 32 { HexOfByte(c as int); }
  }

  /** Of the two ways to write a hexadecimal digit, the small letter is printed. */
  lemma PrintsSmallLetters(c: char)
    requires c as int < 32
    ensures forall i :: 0 <= i < |EscapeChar(c)| ==> !('A' <= EscapeChar(c)[i] <= 'Z')
  {
    HexOfByte(c as int);
    assert HexDigit(c as int / 16) == if c as int < 16 then '0' else '1';
  }

  /** A byte is printed as it is exactly when it is no control character, no quote and no backslash. */
  lemma PrintsPlain(c: char)
    ensures EscapeChar(c) == [c] <==> Unescaped(c as int)
  {}

  /** So is a whole string. */
  lemma {:induction false} PlainExactly(s: string)
    ensures Escape(s) == s <==> forall i :: 0 <= i < |s| ==> Unescaped(s[i] as int)
  {
    if s != [] {
      PrintsPlain(s[0]);
      PlainExactly(s[1..]);
      var e := Escape(s);
      if Unescaped(s[0] as int) {
        assert e == [s[0]] + Escape(s[1..]);
        assert e[1..] == Escape(s[1..]);
      } else {
        assert |e| > |s|;
      }
      assert s == [s[0]] + s[1..];
    }
  }

  // ---- The forms of a string ----------------------------------------------------------------

  /** `parts` are forms of the bytes of `s`, one each. */
  ghost predicate Forms(parts: seq<string>, s: string) {
    |parts| == |s| && forall i :: 0 <= i < |s| ==> FormOf(parts[i], s[i])
  }

  function Join(parts: seq<string>): string {
    if parts == [] then "" else parts[0] + Join(parts[1..])
  }

  /** What is printed is a form of the string, and none is shorter. */
  lemma {:induction false} StringPrintsShortest(s: string, parts: seq<string>)
    requires IsCString(s) && Forms(parts, s)
    ensures |Escape(s)| <= |Join(parts)|
  {
    if s != [] {
      PrintsShortest(s[0], parts[0]);
      StringPrintsShortest(s[1..], parts[1..]);
    }
  }

  lemma {:induction false} PrintedForms(s: string) returns (parts: seq<string>)
    requires IsCString(s)
    ensures Forms(parts, s) && Join(parts) == Escape(s)
  {
    if s == [] {
      parts := [];
    } else {
      var more := PrintedForms(s[1..]);
      PrintsShortest(s[0], "");
      parts := [EscapeChar(s[0])] + more;
      assert parts[1..] == more;
    }
  }

  // ---- Every form is read back --------------------------------------------------------------

  lemma FormPasses(e: string, c: char, s: string)
    requires FormOf(e, c)
    ensures FindClose(e + s) == Further(FindClose(s), |e|)
  {
    if |e| == 6 {
      assert e[0] == e[..4][0] && e[1] == e[..4][1] && e[2] == e[..4][2] && e[3] == e[..4][3];
      assert (e + s)[2..] == e[2..] + s;
      PassesPlain(e[2..], s);
    } else if |e| == 2 {
      assert (e + s)[2..] == s;
    } else {
      assert (e + s)[1..] == s;
    }
  }

  lemma FormReads(e: string, c: char, s: string, room: nat)
    requires FormOf(e, c) && room < |s|
    ensures Unescape(e + s, |e| + room) == Prepend([c], Unescape(s, room))
  {
    var t := e + s;
    if |e| == 6 {
      assert e[0] == e[..4][0] && e[1] == e[..4][1] && e[2] == e[..4][2] && e[3] == e[..4][3];
      assert t[2..6] == e[2..] && t[6..] == s;
      assert HexValue('0') == Some(0);
      assert ParseHex4(t[2..6]) == c as int;
      assert Utf16Literal(t, |e| + room) == Literal([c], 6);
    } else if |e| == 2 {
      assert t[2..] == s && t[1] == e[1] && t[1] != 'u';
      assert SimpleEscape(t[1]) == Some(c);
    } else {
      assert t[1..] == s;
    }
  }

  lemma {:induction false} FormsPass(parts: seq<string>, s: string, post: string)
    requires Forms(parts, s)
    ensures FindClose(Join(parts) + ([QUOTE] + post)) == Some(|Join(parts)|)
  {
    var close := [QUOTE] + post;
    if parts == [] {
      assert Join(parts) + close == close;
    } else {
      FormsPass(parts[1..], s[1..], post);
      Associative(parts[0], Join(parts[1..]), close);
      FormPasses(parts[0], s[0], Join(parts[1..]) + close);
    }
  }

  lemma {:induction false} FormsRead(parts: seq<string>, s: string, post: string)
    requires Forms(parts, s)
    ensures Unescape(Join(parts) + ([QUOTE] + post), |Join(parts)|) == Some(s)
  {
    var close := [QUOTE] + post;
    if parts == [] {
      assert Join(parts) + close == close;
    } else {
      FormsRead(parts[1..], s[1..], post);
      Associative(parts[0], Join(parts[1..]), close);
      FormReads(parts[0], s[0], Join(parts[1..]) + close, |Join(parts[1..])|);
      hide Unescape, FormOf;
      assert [s[0]] + s[1..] == s;
    }
  }

  /** Whichever forms a literal is written in, it is parsed to the string they stand for. */
  lemma EveryFormParses(parts: seq<string>, s: string, post: string)
    requires IsCString(s) && Forms(parts, s) && Terminated(post)
    ensures Terminated([QUOTE] + Join(parts) + ([QUOTE] + post))
    ensures ParseString([QUOTE] + Join(parts) + ([QUOTE] + post)) == Success(s, post)
  {
    var e := Join(parts);
    FormsPass(parts, s, post);
    FormsRead(parts, s, post);
    NothingCut(s);
    hide *;
    Between(e, post);
    ParsesBetween([QUOTE] + e + ([QUOTE] + post), e, s, post);
  }

  lemma Between(e: string, post: string)
    requires Terminated(post)
    ensures var text := [QUOTE] + e + ([QUOTE] + post);
            Terminated(text) && text[0] == QUOTE && text[1..] == e + ([QUOTE] + post) && |text| == |e| + 2 + |post|
            && text[|e| + 2..] == post
  {}

  lemma ParsesBetween(text: string, e: string, s: string, post: string)
    requires Terminated(text) && text[0] == QUOTE && text[1..] == e + ([QUOTE] + post) && |text| == |e| + 2 + |post|
    requires text[|e| + 2..] == post && UpToNul(s) == s
    requires FindClose(e + ([QUOTE] + post)) == Some(|e|) && Unescape(e + ([QUOTE] + post), |e|) == Some(s)
    ensures ParseString(text) == Success(s, post)
  {
    hide FindClose, Unescape, UpToNul;
  }
}

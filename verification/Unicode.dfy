/**
 `\u` escapes: what they decode to, against UTF-8 as section 4 of RFC 3629 defines it.
 */
module Unicode {
  import opened CString
  import opened Parse
  import opened Render
  import opened RoundTrip

  /** A Unicode scalar value: a code point that is no surrogate. */
  predicate Scalar(codepoint: nat) {
    codepoint < 0x110000 && !(0xD800 <= codepoint <= 0xDFFF)
  }

  // ---- UTF-8 --------------------------------------------------------------------------------

  predicate InRange(c: char, low: nat, high: nat) {
    low <= c as int <= high
  }

  predicate Tail(c: char) {
    InRange(c, 0x80, 0xBF)
  }

  function Low6(c: char): nat
    requires Tail(c)
  {
    c as int - 0x80
  }

  /** One character by the grammar of the standard, overlong forms and surrogates excluded. */
  function DecodeUtf8(s: string): Option<nat> {
    if |s| == 1 && InRange(s[0], 0, 0x7F) then Some(s[0] as int)
    else if |s| == 2 && InRange(s[0], 0xC2, 0xDF) && Tail(s[1]) then
      Some((s[0] as int - 0xC0) * 64 + Low6(s[1]))
    else if |s| == 3 && Tail(s[1]) && Tail(s[2])
            && ((InRange(s[0], 0xE0, 0xE0) && InRange(s[1], 0xA0, 0xBF)) || InRange(s[0], 0xE1, 0xEC)
                || (InRange(s[0], 0xED, 0xED) && InRange(s[1], 0x80, 0x9F)) || InRange(s[0], 0xEE, 0xEF)) then
      Some((s[0] as int - 0xE0) * 4096 + Low6(s[1]) * 64 + Low6(s[2]))
    else if |s| == 4 && Tail(s[1]) && Tail(s[2]) && Tail(s[3])
            && ((InRange(s[0], 0xF0, 0xF0) && InRange(s[1], 0x90, 0xBF)) || InRange(s[0], 0xF1, 0xF3)
                || (InRange(s[0], 0xF4, 0xF4) && InRange(s[1], 0x80, 0x8F))) then
      Some((s[0] as int - 0xF0) * 262144 + Low6(s[1]) * 4096 + Low6(s[2]) * 64 + Low6(s[3]))
    else None
  }

  lemma Sixes(codepoint: nat)
    ensures codepoint == (codepoint / 64) * 64 + codepoint % 64
    ensures codepoint / 64 == (codepoint / 4096) * 64 + (codepoint / 64) % 64
    ensures codepoint / 4096 == (codepoint / 262144) * 64 + (codepoint / 4096) % 64
  {
    assert codepoint / 64 / 64 == codepoint / 4096;
    assert codepoint / 4096 / 64 == codepoint / 262144;
  }

  /** The bytes written for a scalar value are its UTF-8 form. */
  lemma Utf8Decodes(codepoint: nat)
    requires Scalar(codepoint)
    ensures DecodeUtf8(Utf8(codepoint)) == Some(codepoint)
  {
    Sixes(codepoint);
  }

  /** Nothing else decodes to it, and nothing decodes to a surrogate. */
  lemma Utf8Exactly(s: string, codepoint: nat)
    ensures DecodeUtf8(s) == Some(codepoint) <==> Scalar(codepoint) && s == Utf8(codepoint)
  {
    if Scalar(codepoint) { Utf8Decodes(codepoint); }
    if DecodeUtf8(s) == Some(codepoint) {
      Rebuilds(s, codepoint);
    }
  }

  lemma Rebuilds(s: string, codepoint: nat)
    requires DecodeUtf8(s) == Some(codepoint)
    ensures Scalar(codepoint) && s == Utf8(codepoint)
  {
    Sixes(codepoint);
    if |s| == 2 {
      Places(s[0] as int - 0xC0, Low6(s[1]));
    } else if |s| == 3 {
      Rebuilds3(s, codepoint);
    } else if |s| == 4 {
      Rebuilds4(s, codepoint);
    }
  }

  lemma Rebuilds3(s: string, codepoint: nat)
    requires |s| == 3 && DecodeUtf8(s) == Some(codepoint)
    ensures Scalar(codepoint) && s == Utf8(codepoint)
  {
    var a, b, c := s[0] as int - 0xE0, Low6(s[1]), Low6(s[2]);
    Places(a, b);
    Places(a * 64 + b, c);
    Sixes(codepoint);
  }

  lemma Rebuilds4(s: string, codepoint: nat)
    requires |s| == 4 && DecodeUtf8(s) == Some(codepoint)
    ensures Scalar(codepoint) && s == Utf8(codepoint)
  {
    var a, b, c, d := s[0] as int - 0xF0, Low6(s[1]), Low6(s[2]), Low6(s[3]);
    Places(a, b);
    Places(a * 64 + b, c);
    Places(a * 4096 + b * 64 + c, d);
    Sixes(codepoint);
  }

  lemma Places(high: nat, low: nat)
    requires low < 64
    ensures (high * 64 + low) / 64 == high && (high * 64 + low) % 64 == low
  {}

  // ---- Escapes ------------------------------------------------------------------------------

  /** One UTF-16 code unit as an escape. */
  function Unit(n: nat): (r: string)
    requires n < 0x10000
    ensures |r| == 6
  {
    [BACKSLASH, 'u', HexDigit(n / 4096), HexDigit(n / 256 % 16), HexDigit(n / 16 % 16), HexDigit(n % 16)]
  }

  /** A scalar value as one escape, or as the two of its surrogate pair. */
  function EscapedScalar(codepoint: nat): (r: string)
    requires Scalar(codepoint)
    ensures |r| == if codepoint < 0x10000 then 6 else 12
  {
    if codepoint < 0x10000 then Unit(codepoint)
    else Unit(High(codepoint)) + Unit(Low(codepoint))
  }

  lemma UnitReads(n: nat)
    requires n < 0x10000
    ensures ParseHex4(Unit(n)[2..6]) == n
    ensures QUOTE !in Unit(n)[2..] && BACKSLASH !in Unit(n)[2..]
  {
    HexDigitReadsBack(n / 4096);
    HexDigitReadsBack(n / 256 % 16);
    HexDigitReadsBack(n / 16 % 16);
    HexDigitReadsBack(n % 16);
    Nibbles(n);
    var t := Unit(n)[2..];
    assert t == [HexDigit(n / 4096), HexDigit(n / 256 % 16), HexDigit(n / 16 % 16), HexDigit(n % 16)];
    assert Unit(n)[2..6] == t;
  }

  lemma Nibbles(n: nat)
    ensures n == n / 4096 * 4096 + n / 256 % 16 * 256 + n / 16 % 16 * 16 + n % 16
  {
    assert n / 16 / 16 == n / 256 && n / 256 / 16 == n / 4096;
  }

  /** An escaped scalar value is decoded to its UTF-8 form. */
  lemma LiteralReads(codepoint: nat, s: string, room: nat)
    requires Scalar(codepoint) && room < |s|
    ensures var e := EscapedScalar(codepoint);
            Utf16Literal(e + s, |e| + room) == Literal(Utf8(codepoint), |e|)
  {
    var e := EscapedScalar(codepoint);
    var t := e + s;
    if codepoint < 0x10000 {
      UnitReads(codepoint);
      assert t[2..6] == Unit(codepoint)[2..6];
    } else {
      PairReads(codepoint, s);
    }
    hide ParseHex4, Utf8, Unit;
  }

  lemma PairReads(codepoint: nat, s: string)
    requires 0x10000 <= codepoint < 0x110000
    ensures var t := Unit(High(codepoint)) + Unit(Low(codepoint)) + s;
            && ParseHex4(t[2..6]) == High(codepoint) && ParseHex4(t[8..12]) == Low(codepoint)
            && t[6] == BACKSLASH && t[7] == 'u'
  {
    var t := Unit(High(codepoint)) + Unit(Low(codepoint)) + s;
    UnitReads(High(codepoint));
    UnitReads(Low(codepoint));
    assert t[2..6] == Unit(High(codepoint))[2..6];
    assert t[8..12] == Unit(Low(codepoint))[2..6];
  }

  /** Whatever is accepted comes out as the UTF-8 form of some scalar value. */
  lemma AcceptedIsWellFormed(s: string, room: nat)
    requires room <= |s| && Utf16Literal(s, room).Literal?
    ensures DecodeUtf8(Utf16Literal(s, room).bytes).Some?
  {
    var first := ParseHex4(s[2..6]);
    if 0xD800 <= first <= 0xDBFF {
      var second := ParseHex4(s[8..12]);
      Utf8Decodes(0x10000 + (first - 0xD800) * 1024 + (second - 0xDC00));
    } else {
      Utf8Decodes(first);
    }
  }

  // ---- Whole strings ------------------------------------------------------------------------

  function EscapedText(codepoints: seq<nat>): string
    requires forall i :: 0 <= i < |codepoints| ==> Scalar(codepoints[i])
  {
    if codepoints == [] then [] else EscapedScalar(codepoints[0]) + EscapedText(codepoints[1..])
  }

  function Utf8Text(codepoints: seq<nat>): string
    requires forall i :: 0 <= i < |codepoints| ==> Scalar(codepoints[i])
  {
    if codepoints == [] then []
    else
      assert Scalar(codepoints[0]);
      Utf8(codepoints[0]) + Utf8Text(codepoints[1..])
  }

  lemma ClosePassesUnit(n: nat, s: string)
    requires n < 0x10000
    ensures FindClose(Unit(n) + s) == Further(FindClose(s), 6)
  {
    UnitReads(n);
    var digits := Unit(n)[2..];
    assert Unit(n) == [BACKSLASH, 'u'] + digits;
    Associative([BACKSLASH, 'u'], digits, s);
    PassesPlain(digits, s);
    ClosePassesEscape('u', digits + s);
  }

  lemma ClosePassesEscape(c: char, s: string)
    ensures FindClose([BACKSLASH, c] + s) == Further(FindClose(s), 2)
  {
    assert ([BACKSLASH, c] + s)[2..] == s;
  }

  function High(codepoint: nat): nat
    requires 0x10000 <= codepoint < 0x110000
  {
    0xD800 + (codepoint - 0x10000) / 1024
  }

  function Low(codepoint: nat): nat
    requires 0x10000 <= codepoint < 0x110000
  {
    0xDC00 + (codepoint - 0x10000) % 1024
  }

  lemma ClosePassesScalar(codepoint: nat, s: string)
    requires Scalar(codepoint)
    ensures FindClose(EscapedScalar(codepoint) + s) == Further(FindClose(s), |EscapedScalar(codepoint)|)
  {
    hide FindClose, Unit;
    if codepoint < 0x10000 {
      ClosePassesUnit(codepoint, s);
    } else {
      ClosePassesUnit(Low(codepoint), s);
      ClosePassesUnit(High(codepoint), Unit(Low(codepoint)) + s);
      Associative(Unit(High(codepoint)), Unit(Low(codepoint)), s);
    }
  }

  /** What the second pass does with a `\\u` escape. */
  lemma UnescapesLiteral(t: string, room: nat, bytes: string, n: nat, s: string)
    requires 2 <= n <= room < |t| && t[0] == BACKSLASH && t[1] == 'u'
    requires Utf16Literal(t, room) == Literal(bytes, n) && t[n..] == s
    ensures Unescape(t, room) == Prepend(bytes, Unescape(s, room - n))
  {
    hide Utf16Literal;
  }

  lemma UnescapesScalar(codepoint: nat, s: string, room: nat)
    requires Scalar(codepoint) && room < |s|
    ensures var e := EscapedScalar(codepoint);
            Unescape(e + s, |e| + room) == Prepend(Utf8(codepoint), Unescape(s, room))
  {
    var e := EscapedScalar(codepoint);
    LiteralReads(codepoint, s, room);
    assert e[0] == BACKSLASH && e[1] == 'u';
    hide Utf16Literal, Utf8, EscapedScalar, Unescape;
    assert (e + s)[|e|..] == s;
    UnescapesLiteral(e + s, |e| + room, Utf8(codepoint), |e|, s);
  }

  lemma {:induction false} EscapedTextReads(codepoints: seq<nat>, post: string)
    requires forall i :: 0 <= i < |codepoints| ==> Scalar(codepoints[i])
    ensures var e := EscapedText(codepoints);
            && FindClose(e + ([QUOTE] + post)) == Some(|e|)
            && Unescape(e + ([QUOTE] + post), |e|) == Some(Utf8Text(codepoints))
  {
    if codepoints == [] {
      assert EscapedText(codepoints) + ([QUOTE] + post) == [QUOTE] + post;
    } else {
      var first, more := EscapedScalar(codepoints[0]), EscapedText(codepoints[1..]);
      EscapedTextReads(codepoints[1..], post);
      Associative(first, more, [QUOTE] + post);
      hide FindClose, Unescape, EscapedScalar, Utf8;
      ClosePassesScalar(codepoints[0], more + ([QUOTE] + post));
      UnescapesScalar(codepoints[0], more + ([QUOTE] + post), |more|);
    }
  }

  /**
   Any text, escaped code point by code point, surrogate pairs included, is parsed to its UTF-8 form.
   The parsed string is a C string: it ends at the first code point 0.
   */
  lemma EscapedTextParses(codepoints: seq<nat>, post: string)
    requires forall i :: 0 <= i < |codepoints| ==> Scalar(codepoints[i])
    requires Terminated(post)
    ensures var s := [QUOTE] + (EscapedText(codepoints) + ([QUOTE] + post));
            Terminated(s) && ParseString(s) == Success(UpToNul(Utf8Text(codepoints)), post)
  {
    EscapedTextReads(codepoints, post);
    hide FindClose, Unescape, EscapedText, Utf8Text, UpToNul, ParseString;
    StringParses(EscapedText(codepoints), Utf8Text(codepoints), post);
  }

  /** What `ParseString` does once both passes are known. */
  lemma StringParses(e: string, text: string, post: string)
    requires Terminated(post)
    requires FindClose(e + ([QUOTE] + post)) == Some(|e|) && Unescape(e + ([QUOTE] + post), |e|) == Some(text)
    ensures var s := [QUOTE] + (e + ([QUOTE] + post));
            Terminated(s) && ParseString(s) == Success(UpToNul(text), post)
  {
    var s := [QUOTE] + (e + ([QUOTE] + post));
    hide FindClose, Unescape, UpToNul;
    assert s[1..] == e + ([QUOTE] + post);
    assert s[|e| + 2..] == post;
  }

  // ---- The loops ----------------------------------------------------------------------------

  /** The Horner value of the first digits, or nothing when one of them is no digit. */
  function HexPrefix(s: string, n: nat): Option<nat>
    requires n <= |s|
  {
    if n == 0 then Some(0)
    else if HexPrefix(s, n - 1).Some? && HexValue(s[n - 1]).Some?
    then Some(HexPrefix(s, n - 1).value * 16 + HexValue(s[n - 1]).value)
    else None
  }

  lemma HexPrefixReads(s: string, h: nat)
    requires |s| >= 4 && HexPrefix(s, 4) == Some(h)
    ensures ParseHex4(s) == h
  {
    assert HexPrefix(s, 3).Some? && HexPrefix(s, 2).Some? && HexPrefix(s, 1).Some?;
    var a, b, c, d := HexValue(s[0]).value, HexValue(s[1]).value, HexValue(s[2]).value, HexValue(s[3]).value;
    assert HexPrefix(s, 1).value == a;
    assert HexPrefix(s, 2).value == a * 16 + b;
    assert HexPrefix(s, 3).value == (a * 16 + b) * 16 + c;
  }

  /** `parse_hex4`. */
  method ParseHex4InStep(s: string) returns (h: nat)
    requires |s| >= 4
    ensures h == ParseHex4(s)
  {
    h := 0;
    var i := 0;
    while i < 4
      invariant i <= 4
      invariant HexPrefix(s, i) == Some(if i < 4 then h / 16 else h)
      invariant i < 4 ==> h % 16 == 0
    {
      if '0' <= s[i] <= '9' {
        h := h + (s[i] as int - '0' as int);
      } else if 'A' <= s[i] <= 'F' {
        h := h + (10 + s[i] as int - 'A' as int);
      } else if 'a' <= s[i] <= 'f' {
        h := h + (10 + s[i] as int - 'a' as int);
      } else {
        return 0;
      }
      if i < 3 {
        h := h * 16;
      }
      i := i + 1;
    }
    hide ParseHex4;
    HexPrefixReads(s, h);
  }

  /** The codepoint after some rounds of shifting out six bits. */
  function Shifted(codepoint: nat, steps: nat): nat {
    if steps == 0 then codepoint else Shifted(codepoint, steps - 1) / 64
  }

  /** Marker of the first byte. */
  function Mark(length: nat): nat {
    if length == 2 then 0xC0 else if length == 3 then 0xE0 else if length == 4 then 0xF0 else 0
  }

  lemma Shifts(codepoint: nat)
    ensures Shifted(codepoint, 0) == codepoint
    ensures Shifted(codepoint, 1) == codepoint / 64
    ensures Shifted(codepoint, 2) == codepoint / 4096
    ensures Shifted(codepoint, 3) == codepoint / 262144
  {
    assert Shifted(codepoint, 1) == Shifted(codepoint, 0) / 64;
    assert Shifted(codepoint, 2) == Shifted(codepoint, 1) / 64;
    assert Shifted(codepoint, 3) == Shifted(codepoint, 2) / 64;
  }

  /** The bytes, by position: six bits each, the marker in front of the first. */
  lemma Utf8ByPosition(codepoint: nat)
    requires codepoint < 0x110000
    ensures var r := Utf8(codepoint);
            && Mark(|r|) + Shifted(codepoint, |r| - 1) < 256 && r[0] as int == Mark(|r|) + Shifted(codepoint, |r| - 1)
            && forall k :: 0 < k < |r| ==> r[k] as int == 0x80 + Shifted(codepoint, |r| - 1 - k) % 64
  {
    Shifts(codepoint);
    Sixes(codepoint);
  }

  lemma Utf8Length(codepoint: nat)
    requires codepoint < 0x110000
    ensures |Utf8(codepoint)| ==
              if codepoint < 0x80 then 1 else if codepoint < 0x800 then 2 else if codepoint < 0x10000 then 3 else 4
  {}

  lemma ShiftOnce(codepoint: nat, steps: nat)
    ensures Shifted(codepoint, 0) == codepoint
    ensures Shifted(codepoint, steps + 1) == Shifted(codepoint, steps) / 64
  {}

  /** The encoding loop of `utf16_literal_to_utf8`: from the last byte to the first, six bits at a time. */
  method EncodeUtf8(codepoint: nat) returns (output: array<char>)
    requires codepoint < 0x110000
    ensures fresh(output) && output[..] == Utf8(codepoint)
  {
    hide Utf8, Shifted;
    Utf8Length(codepoint);
    Utf8ByPosition(codepoint);
    var length, mark := 1, 0;
    if codepoint < 0x80 {
    } else if codepoint < 0x800 {
      length, mark := 2, 0xC0;
    } else if codepoint < 0x10000 {
      length, mark := 3, 0xE0;
    } else {
      length, mark := 4, 0xF0;
    }
    ghost var bytes := Utf8(codepoint);
    assert |bytes| == length && Mark(length) == mark;
    hide Mark;
    output := new char[length];
    var position := length - 1;
    var left := codepoint;
    ShiftOnce(codepoint, 0);
    while position > 0
      invariant 0 <= position < length
      invariant left == Shifted(codepoint, length - 1 - position)
      invariant forall k :: position < k < length ==> output[k] == bytes[k]
    {
      ShiftOnce(codepoint, length - 1 - position);
      output[position] := (0x80 + left % 64) as char;
      left := left / 64;
      position := position - 1;
    }
    output[0] := (mark + left) as char;
  }
}

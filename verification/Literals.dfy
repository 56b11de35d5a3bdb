/**
 Which string contents the parser accepts, escape by escape: plain bytes, letters behind a backslash, and
 `\u` escapes, alone or as surrogate pairs. `Grammar` is about everything above strings.
 */
module Literals {
  import opened CString
  import opened Escaping
  import opened Parse
  import opened Render
  import opened Unicode

  // ---- Hexadecimal digits -------------------------------------------------------------------

  const LOWER_HEX: string := "0123456789abcdef"
  const UPPER_HEX: string := "0123456789ABCDEF"

  lemma HexExactly(c: char, d: nat)
    ensures HexValue(c) == Some(d) <==> d < 16 && (LOWER_HEX[d] == c || UPPER_HEX[d] == c)
  {
    if HexValue(c) == Some(d) && d >= 10 {
      assert c == 'A' + (d - 10) as char || c == 'a' + (d - 10) as char;
    }
  }

  /** What the four bytes behind `\u` count as: 0, unless all are hexadecimal digits. */
  predicate UnitIs(h: string, n: nat) {
    && |h| == 4
    && if forall i :: 0 <= i < 4 ==> HexValue(h[i]).Some? then n == Horner(h) else n == 0
  }

  function Horner(h: string): nat
    requires forall i :: 0 <= i < |h| ==> HexValue(h[i]).Some?
  {
    if h == "" then 0 else 16 * Horner(h[..|h| - 1]) + HexValue(h[|h| - 1]).value
  }

  lemma UnitOne(h: string)
    requires |h| == 4
    ensures UnitIs(h, ParseHex4(h))
    ensures forall n :: UnitIs(h, n) ==> n == ParseHex4(h)
  {
    if forall i :: 0 <= i < 4 ==> HexValue(h[i]).Some? {
      assert h[..3][..2] == h[..2] && h[..2][..1] == h[..1] && h[..1][..0] == "";
      assert Horner(h[..1]) == HexValue(h[0]).value;
      assert Horner(h[..2]) == 16 * Horner(h[..1]) + HexValue(h[1]).value;
      assert Horner(h[..3]) == 16 * Horner(h[..2]) + HexValue(h[2]).value;
    }
  }

  // ---- Pieces -------------------------------------------------------------------------------

  /** A piece of a literal and the bytes it stands for. */
  datatype Piece = Piece(source: string, bytes: string)

  /** Any byte but a backslash stands for itself. */
  predicate Plain(p: Piece) {
    |p.source| == 1 && p.source[0] != BACKSLASH && p.bytes == p.source
  }

  predicate Letter(p: Piece) {
    |p.source| == 2 && p.source[0] == BACKSLASH && |p.bytes| == 1 && ShortForm(p.source[1], p.bytes[0] as int)
  }

  predicate Unit16(s: string, n: nat) {
    |s| == 6 && s[0] == BACKSLASH && s[1] == 'u' && UnitIs(s[2..], n)
  }

  /** One `\u` escape that is no surrogate: its UTF-8 form. */
  ghost predicate Single(p: Piece) {
    exists n: nat :: Unit16(p.source, n) && DecodeUtf8(p.bytes) == Some(n)
  }

  /** A high surrogate and a low one: the UTF-8 form of what they encode, by RFC 2781 section 2.2. */
  ghost predicate Pair(p: Piece) {
    && |p.source| == 12
    && exists high: nat, low: nat ::
         Unit16(p.source[..6], high) && Unit16(p.source[6..], low) && PairIs(p.bytes, high, low)
  }

  predicate PairIs(bytes: string, high: nat, low: nat) {
    && 0xD800 <= high <= 0xDBFF && 0xDC00 <= low <= 0xDFFF
    && DecodeUtf8(bytes) == Some(0x10000 + (high - 0xD800) * 0x400 + (low - 0xDC00))
  }

  ghost predicate IsPiece(p: Piece) {
    Plain(p) || Letter(p) || Single(p) || Pair(p)
  }

  ghost predicate Pieces(ps: seq<Piece>) {
    forall i :: 0 <= i < |ps| ==> IsPiece(ps[i])
  }

  function Source(ps: seq<Piece>): string {
    if ps == [] then "" else ps[0].source + Source(ps[1..])
  }

  function Bytes(ps: seq<Piece>): string {
    if ps == [] then "" else ps[0].bytes + Bytes(ps[1..])
  }

  /**
   The pieces make up the `room` bytes in front of the closing quote. Only a letter behind a backslash can
   reach one byte further: then the backslash is the last of them, and the quote is taken for the letter.
   */
  predicate Covers(ps: seq<Piece>, room: nat) {
    var n := |Source(ps)|;
    n == room || (n == room + 1 && ps != [] && |ps[|ps| - 1].source| == 2)
  }

  ghost predicate Reading(ps: seq<Piece>, s: string, room: nat, text: string) {
    Pieces(ps) && Covers(ps, room) && Source(ps) <= s && Bytes(ps) == text
  }

  // ---- One piece ----------------------------------------------------------------------------

  lemma LetterIs(letter: char, c: char)
    ensures SimpleEscape(letter) == Some(c) <==> ShortForm(letter, c as int)
  {}

  lemma UnitOf(s: string, first: nat)
    requires |s| >= 6 && s[0] == BACKSLASH && s[1] == 'u'
    ensures Unit16(s[..6], first) <==> ParseHex4(s[2..6]) == first
  {
    UnitOne(s[2..6]);
    assert s[..6][2..] == s[2..6];
  }

  lemma SurrogatesPair(s: string, high: nat, low: nat, bytes: string)
    requires 0xD800 <= high <= 0xDBFF && 0xDC00 <= low <= 0xDFFF
    ensures PairIs(bytes, high, low) <==> bytes == Utf8(0x10000 + (high - 0xD800) * 1024 + (low - 0xDC00))
  {
    Utf8Exactly(bytes, 0x10000 + (high - 0xD800) * 1024 + (low - 0xDC00));
  }

  /** A `\u` escape is decoded to some bytes exactly when it and they are a piece. */
  lemma EscapeIsPiece(s: string, room: nat)
    requires room <= |s| && 2 <= room && s[0] == BACKSLASH && s[1] == 'u' && Utf16Literal(s, room).Literal?
    ensures var r := Utf16Literal(s, room); IsPiece(Piece(s[..r.length], r.bytes))
  {
    var first := ParseHex4(s[2..6]);
    UnitOf(s, first);
    if 0xD800 <= first <= 0xDBFF {
      PairFound(s, room);
    } else {
      var r := Utf16Literal(s, room);
      Utf8Exactly(r.bytes, first);
      hide ParseHex4, Utf8, DecodeUtf8, UnitIs, Pair, Letter, Plain;
      assert Single(Piece(s[..r.length], r.bytes));
    }
  }

  lemma PairFound(s: string, room: nat)
    requires room <= |s| && 2 <= room && s[0] == BACKSLASH && s[1] == 'u' && Utf16Literal(s, room).Literal?
    requires 0xD800 <= ParseHex4(s[2..6]) <= 0xDBFF
    ensures var r := Utf16Literal(s, room); Pair(Piece(s[..r.length], r.bytes))
  {
    var r := Utf16Literal(s, room);
    var p, t := Piece(s[..r.length], r.bytes), s[6..];
    var first, second := ParseHex4(s[2..6]), ParseHex4(s[8..12]);
    hide ParseHex4, Utf8, DecodeUtf8, UnitIs;
    assert s[8..12] == t[2..6] && s[6] == t[0] && s[7] == t[1];
    UnitOf(s, first);
    UnitOf(t, second);
    SurrogatesPair(s, first, second, r.bytes);
    assert p.source[..6] == s[..6] && p.source[6..] == t[..6];
  }

  lemma SingleIsEscape(p: Piece, s: string, room: nat)
    requires room <= |s| && p.source <= s && |p.source| <= room && Single(p)
    ensures s[0] == BACKSLASH && s[1] == 'u' && Utf16Literal(s, room) == Literal(p.bytes, |p.source|)
  {
    assert p.source == s[..|p.source|];
    var first: nat :| Unit16(p.source, first) && DecodeUtf8(p.bytes) == Some(first);
    UnitOf(s, first);
    Utf8Exactly(p.bytes, first);
    hide ParseHex4, Utf8, DecodeUtf8, UnitIs;
  }

  lemma PairIsEscape(p: Piece, s: string, room: nat)
    requires room <= |s| && p.source <= s && |p.source| <= room && Pair(p)
    ensures s[0] == BACKSLASH && s[1] == 'u' && Utf16Literal(s, room) == Literal(p.bytes, |p.source|)
  {
    var high: nat, low: nat :| Unit16(p.source[..6], high) && Unit16(p.source[6..], low) && PairIs(p.bytes, high, low);
    hide ParseHex4, Utf8, DecodeUtf8, UnitIs;
    var t := s[6..];
    assert p.source == s[..12];
    assert p.source[..6] == s[..6] && p.source[6..] == t[..6];
    assert s[8..12] == t[2..6] && s[6] == t[0] && s[7] == t[1];
    UnitOf(s, high);
    UnitOf(t, low);
    SurrogatesPair(s, high, low, p.bytes);
  }

  lemma PieceSize(p: Piece)
    requires IsPiece(p)
    ensures |p.source| >= 1 && (|p.source| == 2 ==> Letter(p))
  {}

  // ---- All of them --------------------------------------------------------------------------

  /** `p` is what the second pass takes first, and the quote with it when `p` reaches further than `room`. */
  predicate Takes(p: Piece, s: string, room: nat)
    requires room < |s|
  {
    var n := |p.source|;
    && p.source <= s && Unescape(s, room).Some?
    && if n <= room then Unescape(s, room) == Prepend(p.bytes, Unescape(s[n..], room - n))
       else room == 1 && n == 2 && Unescape(s, room) == Some(p.bytes)
  }

  lemma TakesPiece(s: string, room: nat) returns (p: Piece)
    requires 0 < room < |s| && Unescape(s, room).Some?
    ensures IsPiece(p) && |p.source| >= 1 && Takes(p, s, room)
  {
    if s[0] != BACKSLASH {
      p := Piece(s[..1], [s[0]]);
    } else if s[1] == 'u' {
      p := TakesEscape(s, room);
    } else {
      p := TakesLetter(s, room);
    }
  }

  lemma TakesEscape(s: string, room: nat) returns (p: Piece)
    requires 0 < room < |s| && Unescape(s, room).Some? && s[0] == BACKSLASH && s[1] == 'u'
    ensures IsPiece(p) && |p.source| >= 1 && Takes(p, s, room)
  {
    var r := Utf16Literal(s, room);
    p := Piece(s[..r.length], r.bytes);
    EscapeIsPiece(s, room);
    hide Utf16Literal, IsPiece;
  }

  lemma TakesLetter(s: string, room: nat) returns (p: Piece)
    requires 0 < room < |s| && Unescape(s, room).Some? && s[0] == BACKSLASH && s[1] != 'u'
    ensures IsPiece(p) && |p.source| >= 1 && Takes(p, s, room)
  {
    var c := SimpleEscape(s[1]).value;
    LetterIs(s[1], c);
    p := Piece(s[..2], [c]);
    assert Letter(p);
    hide SimpleEscape, Letter, Single, Pair, Plain;
    assert [c] + "" == [c];
  }

  lemma {:induction false} FindsPieces(s: string, room: nat) returns (ps: seq<Piece>)
    requires room < |s| && Unescape(s, room).Some?
    ensures Reading(ps, s, room, Unescape(s, room).value)
    decreases room
  {
    if room == 0 {
      ps := [];
    } else {
      var p := TakesPiece(s, room);
      var n := |p.source|;
      hide Unescape, IsPiece;
      if n <= room {
        var more := FindsPieces(s[n..], room - n);
        ps := Ahead(p, more, s, room, Unescape(s[n..], room - n).value);
      } else {
        ps := [p];
        OnePiece(p);
      }
    }
  }

  lemma OnePiece(p: Piece)
    ensures Source([p]) == p.source && Bytes([p]) == p.bytes
  {
    assert [p][1..] == [];
  }

  lemma Ahead(p: Piece, more: seq<Piece>, s: string, room: nat, text: string) returns (ps: seq<Piece>)
    requires IsPiece(p) && p.source <= s && |p.source| <= room
    requires Reading(more, s[|p.source|..], room - |p.source|, text)
    ensures ps == [p] + more && Reading(ps, s, room, p.bytes + text)
  {
    ps := [p] + more;
    hide IsPiece;
    assert ps[1..] == more;
    assert more != [] ==> ps[|ps| - 1] == more[|more| - 1];
    assert s == p.source + s[|p.source|..];
  }

  lemma {:induction false} ReadsPieces(ps: seq<Piece>, s: string, room: nat)
    requires room < |s| && Reading(ps, s, room, Bytes(ps))
    ensures Unescape(s, room) == Some(Bytes(ps))
    decreases |ps|
  {
    if ps != [] {
      var p, more := ps[0], ps[1..];
      var n := |p.source|;
      assert IsPiece(p);
      PieceSize(p);
      assert p.source <= s;
      if n <= room {
        Behind(ps, s, room);
        ReadsPieces(more, s[n..], room - n);
        ReadsOne(p, s, room, Bytes(more));
      } else {
        LastPiece(ps, room);
        assert s[0] == p.source[0] && s[1] == p.source[1];
        LetterIs(s[1], p.bytes[0]);
        assert p.bytes == [p.bytes[0]] + "";
      }
    }
  }

  lemma Behind(ps: seq<Piece>, s: string, room: nat)
    requires ps != [] && room < |s| && Reading(ps, s, room, Bytes(ps)) && |ps[0].source| <= room
    ensures ps[0].source <= s && Reading(ps[1..], s[|ps[0].source|..], room - |ps[0].source|, Bytes(ps[1..]))
  {
    hide IsPiece;
    var more := ps[1..];
    assert more != [] ==> ps[|ps| - 1] == more[|more| - 1];
    assert Source(ps)[|ps[0].source|..] == Source(more);
  }

  lemma LastPiece(ps: seq<Piece>, room: nat)
    requires ps != [] && Pieces(ps) && Covers(ps, room) && |ps[0].source| > room
    ensures room == 1 && |ps| == 1 && |ps[0].source| == 2 && Bytes(ps) == ps[0].bytes
  {
    var more := ps[1..];
    SomeSource(ps);
    if more != [] { SomeSource(more); }
  }

  lemma SomeSource(ps: seq<Piece>)
    requires ps != [] && Pieces(ps)
    ensures |Source(ps)| >= 1 && |ps[0].source| >= 1
  {
    assert IsPiece(ps[0]);
    PieceSize(ps[0]);
  }

  lemma ReadsOne(p: Piece, s: string, room: nat, text: string)
    requires IsPiece(p) && room < |s| && p.source <= s && 1 <= |p.source| <= room
    requires Unescape(s[|p.source|..], room - |p.source|) == Some(text)
    ensures Unescape(s, room) == Some(p.bytes + text)
  {
    var n := |p.source|;
    assert p.source == s[..n];
    assert s[0] == p.source[0];
    if Plain(p) {
      assert p.bytes == [s[0]];
    } else if Letter(p) {
      assert s[1] == p.source[1];
      LetterIs(s[1], p.bytes[0]);
      assert p.bytes == [p.bytes[0]];
    } else {
      if Single(p) { SingleIsEscape(p, s, room); } else { PairIsEscape(p, s, room); }
      hide Utf16Literal;
    }
  }

  /** The second pass accepts exactly what is made up of pieces, as what they stand for. */
  lemma UnescapesExactly(s: string, room: nat, text: string)
    requires room < |s|
    ensures Unescape(s, room) == Some(text) <==> exists ps :: Reading(ps, s, room, text)
  {
    hide *;
    if Unescape(s, room) == Some(text) {
      var ps := FindsPieces(s, room);
    } else {
      forall ps | Reading(ps, s, room, text) ensures false {
        BytesAre(ps, s, room, text);
        ReadsPieces(ps, s, room);
      }
    }
  }

  lemma BytesAre(ps: seq<Piece>, s: string, room: nat, text: string)
    requires Reading(ps, s, room, text)
    ensures text == Bytes(ps)
  {}

  /** What is stored of the bytes ends in front of the first NUL, and nowhere else. */
  lemma {:induction false} CutsAtNul(s: string)
    ensures var t := UpToNul(s); t <= s && NUL !in t && (t == s || s[|t|] == NUL)
  {
    if s != [] && s[0] != NUL {
      CutsAtNul(s[1..]);
      var t := UpToNul(s[1..]);
      assert UpToNul(s) == [s[0]] + t;
      assert t == s[1..][..|t|];
    }
  }
}

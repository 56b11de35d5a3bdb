/**
 Reference tokens against section 4 of RFC 6901: how a key is escaped, and which keys a token matches,
 escaped as it should be or not.
 */
module PointerText {
  import opened CString
  import opened Patch
  import opened Pointer

  /** The key a token stands for; a tilde must be followed by 0 or 1. */
  function KeyOf(token: string): Option<string> {
    if token == "" then Some("")
    else if token[0] != '~' then Before(token[0], KeyOf(token[1..]))
    else if |token| > 1 && token[1] == '0' then Before('~', KeyOf(token[2..]))
    else if |token| > 1 && token[1] == '1' then Before('/', KeyOf(token[2..]))
    else None
  }

  function Before(c: char, more: Option<string>): Option<string> {
    if more.Some? then Some([c] + more.value) else None
  }

  // ---- Escaping -----------------------------------------------------------------------------

  /** Escaping goes byte by byte: a tilde becomes `~0`, a slash `~1`, everything else stays. */
  lemma {:induction false} EncodesByteByByte(key: string, c: char)
    ensures Encode([c]) == if c == '~' then ['~', '0'] else if c == '/' then ['~', '1'] else [c]
    ensures Encode(key + [c]) == Encode(key) + Encode([c])
    decreases key
  {
    assert [c][1..] == "" && Encode("") == "";
    if key == "" {
      assert key + [c] == [c];
    } else {
      assert (key + [c])[0] == key[0] && (key + [c])[1..] == key[1..] + [c];
      EncodesByteByByte(key[1..], c);
    }
  }

  /** An escaped key stands for the key. */
  lemma {:induction false} KeyBack(key: string)
    ensures KeyOf(Encode(key)) == Some(key)
  {
    if key != "" {
      KeyBack(key[1..]);
      var e := Encode(key);
      if key[0] == '~' || key[0] == '/' {
        assert e[0] == '~' && e[1] == (if key[0] == '~' then '0' else '1') && e[2..] == Encode(key[1..]);
      } else {
        assert e[0] == key[0] && e[1..] == Encode(key[1..]);
      }
      assert [key[0]] + key[1..] == key;
    }
  }

  // ---- Matching -----------------------------------------------------------------------------

  /** A token matches exactly the keys that compare equal to the one it stands for; a malformed one matches none. */
  lemma {:induction false} MatchesExactly(name: string, token: string, rest: string, caseSensitive: bool)
    requires '/' !in token && TokenEnds(rest)
    ensures ComparePointers(name, token + rest, caseSensitive) <==>
              KeyOf(token).Some? && CompareStrings(name, KeyOf(token).value, caseSensitive) == 0
    decreases |token|
  {
    var p := token + rest;
    if token == "" {
      assert p == rest;
    } else {
      assert p[0] == token[0] && token[0] in token && p[1..] == token[1..] + rest;
      if token[0] != '~' {
        if name != "" { MatchesExactly(name[1..], token[1..], rest, caseSensitive); }
      } else if |token| > 1 {
        assert p[1] == token[1] && p[2..] == token[2..] + rest;
        assert NormOf('~', caseSensitive) && NormOf('/', caseSensitive);
        if name != "" { MatchesExactly(name[1..], token[2..], rest, caseSensitive); }
      } else if rest != "" {
        assert p[1] == '/';
      }
    }
  }

  /** Nothing else is looked at as this byte. */
  predicate NormOf(c: char, caseSensitive: bool) {
    forall d :: Norm(d, caseSensitive) == Norm(c, caseSensitive) <==> d == c
  }

  // ---- Decoding in place --------------------------------------------------------------------

  /** The in-place decoder gets the length right on a well-formed token; on any other it leaves the length alone. */
  lemma {:induction false} DecodedLength(buffer: string, d: nat, i: nat)
    requires d <= i <= |buffer|
    ensures |DecodeFrom(buffer, d, i)| ==
              if KeyOf(buffer[i..]).Some? then d + |KeyOf(buffer[i..]).value| else |buffer|
    decreases |buffer| - i
  {
    var rest := buffer[i..];
    if i < |buffer| {
      assert rest[0] == buffer[i] && rest[1..] == buffer[i + 1..];
      if buffer[i] != '~' {
        DecodedLength(buffer, d + 1, i + 1);
      } else if i + 1 < |buffer| && (buffer[i + 1] == '0' || buffer[i + 1] == '1') {
        assert rest[1] == buffer[i + 1] && rest[2..] == buffer[i + 2..];
        var b := if buffer[i + 1] == '0' then buffer[d := '~'] else buffer[d + 1 := '/'];
        assert b[i + 2..] == buffer[i + 2..];
        DecodedLength(b, d + 1, i + 2);
      }
    }
  }

  lemma DecodesToLength(token: string)
    ensures |DecodeInPlace(token)| == if KeyOf(token).Some? then |KeyOf(token).value| else |token|
  {
    DecodedLength(token, 0, 0);
    assert token[0..] == token;
  }
}

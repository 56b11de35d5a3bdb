/**
 What minifying does to each piece of a text: comments and blanks go, everything else stays. The pieces
 are described by what they contain, not by how the minifier finds their end.
 */
module Comments {
  import opened CString
  import opened Minify
  import opened Render

  // ---- Block comments -----------------------------------------------------------------------

  const OPEN_BLOCK: string := ['/', '*']
  const CLOSE_BLOCK: string := ['*', '/']
  const OPEN_LINE: string := ['/', '/']

  /** The close does not occur. */
  predicate NoClose(c: string) {
    forall i {:trigger c[i]} :: 0 <= i < |c| - 1 && c[i] == '*' ==> c[i + 1] != '/'
  }

  lemma {:induction false} BlockEnds(c: string, rest: string)
    requires NoClose(c)
    ensures AfterBlock(c + CLOSE_BLOCK + rest) == rest
  {
    var s := c + CLOSE_BLOCK + rest;
    if c == "" {
      assert s[2..] == rest;
    } else {
      assert s[1..] == c[1..] + CLOSE_BLOCK + rest;
      assert s[0] == c[0] && s[1] == if |c| > 1 then c[1] else '*';
      BlockEnds(c[1..], rest);
    }
  }

  lemma {:induction false} BlockRunsOut(c: string)
    requires NoClose(c)
    ensures AfterBlock(c) == ""
  {
    if c != "" {
      BlockRunsOut(c[1..]);
    }
  }

  /** A block comment goes, through the first close behind its opening; what follows is minified as if it were not there. */
  lemma BlockComment(c: string, rest: string)
    requires NoClose(c)
    ensures Minified(OPEN_BLOCK + c + CLOSE_BLOCK + rest) == Minified(rest)
  {
    var s := OPEN_BLOCK + c + CLOSE_BLOCK + rest;
    assert s[2..] == c + CLOSE_BLOCK + rest;
    BlockEnds(c, rest);
  }

  /** One that is never closed takes everything. */
  lemma OpenBlockComment(c: string)
    requires NoClose(c)
    ensures Minified(OPEN_BLOCK + c) == ""
  {
    assert (OPEN_BLOCK + c)[2..] == c;
    BlockRunsOut(c);
  }

  // ---- Line comments ------------------------------------------------------------------------

  lemma {:induction false} LineEnds(c: string, rest: string)
    requires '\n' !in c
    ensures AfterLine(c + ['\n'] + rest) == rest
  {
    var s := c + ['\n'] + rest;
    if c == "" {
      assert s[1..] == rest;
    } else {
      assert s[1..] == c[1..] + ['\n'] + rest && s[0] == c[0];
      LineEnds(c[1..], rest);
    }
  }

  lemma {:induction false} LineRunsOut(c: string)
    requires '\n' !in c
    ensures AfterLine(c) == ""
  {
    if c != "" { LineRunsOut(c[1..]); }
  }

  /** A line comment goes, with its newline. */
  lemma LineComment(c: string, rest: string)
    requires '\n' !in c
    ensures Minified(OPEN_LINE + c + ['\n'] + rest) == Minified(rest)
  {
    assert (OPEN_LINE + c + ['\n'] + rest)[2..] == c + ['\n'] + rest;
    LineEnds(c, rest);
  }

  lemma OpenLineComment(c: string)
    requires '\n' !in c
    ensures Minified(OPEN_LINE + c) == ""
  {
    assert (OPEN_LINE + c)[2..] == c;
    LineRunsOut(c);
  }

  // ---- Everything else ----------------------------------------------------------------------

  /** Space, tab, carriage return and newline go. */
  lemma BlankGoes(c: char, rest: string)
    requires c as int in {0x20, 0x09, 0x0D, 0x0A}
    ensures Minified([c] + rest) == Minified(rest)
  {
    assert ([c] + rest)[1..] == rest;
  }

  /** A slash that opens no comment goes too. */
  lemma LoneSlashGoes(rest: string)
    requires rest == "" || (rest[0] != '/' && rest[0] != '*')
    ensures Minified(['/'] + rest) == Minified(rest)
  {
    assert (['/'] + rest)[1..] == rest;
  }

  /** Any other byte outside literals stays. */
  lemma OtherStays(c: char, rest: string)
    requires c as int !in {0x20, 0x09, 0x0D, 0x0A} && c != '/' && c != '"'
    ensures Minified([c] + rest) == [c] + Minified(rest)
  {
    assert ([c] + rest)[1..] == rest;
  }

  /** No quote but behind a backslash. */
  predicate NoBareQuote(body: string) {
    forall i :: 0 <= i < |body| && body[i] == '"' ==> i > 0 && body[i - 1] == '\\'
  }

  lemma {:induction false} LiteralEnds(body: string, rest: string)
    requires NoBareQuote(body) && (body != "" ==> body[|body| - 1] != '\\')
    ensures StringLength(body + ['"'] + rest) == |body| + 1
    decreases |body|
  {
    var s := body + ['"'] + rest;
    if body != "" {
      assert s[0] == body[0];
      var n := if s[0] == '\\' && s[1] == '"' then 2 else 1;
      assert |body| > 1 ==> s[1] == body[1];
      assert s[n..] == body[n..] + ['"'] + rest;
      LiteralEnds(body[n..], rest);
    }
  }

  /** A literal stays whole, blanks and slashes included, unless it ends in a backslash. */
  lemma LiteralStays(body: string, rest: string)
    requires NoBareQuote(body) && (body != "" ==> body[|body| - 1] != '\\')
    ensures Minified(['"'] + body + ['"'] + rest) == ['"'] + body + ['"'] + Minified(rest)
  {
    var s := ['"'] + body + ['"'] + rest;
    LiteralEnds(body, rest);
    assert s[1..] == body + ['"'] + rest;
    assert (body + ['"'] + rest)[..|body| + 1] == body + ['"'];
    assert (body + ['"'] + rest)[|body| + 1..] == rest;
    assert ['"'] + body + ['"'] + Minified(rest) == ['"'] + ((body + ['"']) + Minified(rest));
  }

  lemma {:induction false} LiteralOpen(body: string)
    requires NoBareQuote(body)
    ensures StringLength(body) == |body|
    decreases |body|
  {
    if body != "" {
      var n := if body[0] == '\\' && |body| > 1 && body[1] == '"' then 2 else 1;
      LiteralOpen(body[n..]);
    }
  }

  /** One that is never closed stays to the end. */
  lemma OpenLiteralStays(body: string)
    requires NoBareQuote(body)
    ensures Minified(['"'] + body) == ['"'] + body
  {
    LiteralOpen(body);
    assert (['"'] + body)[1..] == body;
    assert body[..|body|] == body && body[|body|..] == "" && body + "" == body;
  }
}

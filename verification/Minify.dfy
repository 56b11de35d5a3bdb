/**
 `cJSON_Minify`: as a function from text to text, as the in-place loop with its read and write
 positions, and the proof that doing it twice is doing it once.
 */
module Minify {
  import opened CString
  import opened Render

  predicate IsBlank(c: char) {
    c == ' ' || c == TAB || c == RETURN || c == NEWLINE
  }

  /** What is left behind a one-line comment whose `//` has been taken. */
  function AfterLine(s: string): (r: string)
    ensures |r| <= |s|
  {
    if s == [] then [] else if s[0] == NEWLINE then s[1..] else AfterLine(s[1..])
  }

  /** What is left behind a block comment whose opening has been taken. */
  function AfterBlock(s: string): (r: string)
    ensures |r| <= |s|
  {
    if s == [] then []
    else if s[0] == '*' && |s| > 1 && s[1] == '/' then s[2..]
    else AfterBlock(s[1..])
  }

  /**
   Length of a string literal whose opening quote has been taken, closing quote included. Only a
   backslash right before a quote counts as an escape.
   */
  function StringLength(s: string): (n: nat)
    ensures n <= |s| && (s != [] ==> n > 0)
  {
    if s == [] then 0
    else if s[0] == QUOTE then 1
    else if s[0] == BACKSLASH && |s| > 1 && s[1] == QUOTE then 2 + StringLength(s[2..])
    else 1 + StringLength(s[1..])
  }

  /** The minified text of a C string. */
  function Minified(s: string): (r: string)
    ensures |r| <= |s|
    decreases |s|
  {
    if s == [] then []
    else if IsBlank(s[0]) then Minified(s[1..])
    else if s[0] == '/' then
      if |s| > 1 && s[1] == '/' then Minified(AfterLine(s[2..]))
      else if |s| > 1 && s[1] == '*' then Minified(AfterBlock(s[2..]))
      else Minified(s[1..])
    else if s[0] == QUOTE then [QUOTE] + InString(s[1..])
    else [s[0]] + Minified(s[1..])
  }

  /** The same, from inside a string literal on. */
  function InString(s: string): (r: string)
    ensures |r| <= |s|
    decreases |s|
  {
    if s == [] then [] else s[..StringLength(s)] + Minified(s[StringLength(s)..])
  }

  // ---- Twice is once ------------------------------------------------------------------------

  /** The literal has its closing quote. */
  predicate Closed(s: string) {
    s != [] &&
    (s[0] == QUOTE
     || (if s[0] == BACKSLASH && |s| > 1 && s[1] == QUOTE then Closed(s[2..]) else Closed(s[1..])))
  }

  lemma {:induction false} OpenTakesAll(s: string)
    requires !Closed(s)
    ensures StringLength(s) == |s|
  {
    if s != [] {
      if s[0] == BACKSLASH && |s| > 1 && s[1] == QUOTE { OpenTakesAll(s[2..]); } else { OpenTakesAll(s[1..]); }
    }
  }

  /** The length of a closed literal does not depend on what follows it. */
  lemma {:induction false} ClosedLength(s: string, more: string)
    requires Closed(s)
    ensures StringLength(s[..StringLength(s)] + more) == StringLength(s)
  {
    var n := StringLength(s);
    var t := s[..n] + more;
    if s[0] != QUOTE {
      var step := if s[0] == BACKSLASH && |s| > 1 && s[1] == QUOTE then 2 else 1;
      ClosedLength(s[step..], more);
      assert t[step..] == s[step..][..n - step] + more;
      assert t[0] == s[0];
      if step == 1 && s[0] == BACKSLASH && |t| > 1 { assert n > 1; assert t[1] == s[1]; }
    }
  }

  /** Reading a literal again, with its rest minified, finds the same literal. */
  lemma LiteralAgain(s: string)
    requires s != []
    ensures var n := StringLength(s);
            && InString(s) != []
            && StringLength(InString(s)) == n
            && InString(s)[..n] == s[..n]
            && InString(s)[n..] == Minified(s[n..])
  {
    var n := StringLength(s);
    if Closed(s) {
      ClosedLength(s, Minified(s[n..]));
    } else {
      OpenTakesAll(s);
      assert InString(s) == s;
    }
  }

  lemma {:induction false} MinifyIdempotent(s: string)
    ensures Minified(Minified(s)) == Minified(s)
    decreases |s|
  {
    if s != [] {
      if IsBlank(s[0]) {
        MinifyIdempotent(s[1..]);
      } else if s[0] == '/' {
        MinifyIdempotent(s[1..]);
        if |s| > 1 {
          MinifyIdempotent(AfterLine(s[2..]));
          MinifyIdempotent(AfterBlock(s[2..]));
        }
      } else if s[0] == QUOTE {
        var t := s[1..];
        assert Minified(s)[1..] == InString(t);
        if t != [] {
          LiteralAgain(t);
          MinifyIdempotent(t[StringLength(t)..]);
        }
      } else {
        assert Minified(s)[1..] == Minified(s[1..]);
        MinifyIdempotent(s[1..]);
      }
    }
  }

  // ---- In place -----------------------------------------------------------------------------

  /** The C string in `a` has `n` bytes. */
  ghost predicate Holds(a: array<char>, n: nat)
    reads a
  {
    n < a.Length && a[n] == NUL && forall i :: 0 <= i < n ==> a[i] != NUL
  }

  /** `skip_oneline_comment`. */
  method SkipLine(a: array<char>, start: nat, ghost n: nat) returns (json: nat)
    requires Holds(a, n) && start + 2 <= n
    ensures start + 2 <= json <= n && a[json..n] == AfterLine(a[start + 2..n])
  {
    json := start + 2;
    while a[json] != NUL
      invariant start + 2 <= json <= n
      invariant AfterLine(a[json..n]) == AfterLine(a[start + 2..n])
      decreases n - json
    {
      assert a[json..n][1..] == a[json + 1..n];
      if a[json] == NEWLINE {
        json := json + 1;
        return;
      }
      json := json + 1;
    }
    assert a[json..n] == [];
  }

  /** `skip_multiline_comment`. */
  method SkipBlock(a: array<char>, start: nat, ghost n: nat) returns (json: nat)
    requires Holds(a, n) && start + 2 <= n
    ensures start + 2 <= json <= n && a[json..n] == AfterBlock(a[start + 2..n])
  {
    json := start + 2;
    while a[json] != NUL
      invariant start + 2 <= json <= n
      invariant AfterBlock(a[json..n]) == AfterBlock(a[start + 2..n])
      decreases n - json
    {
      ghost var t := a[json..n];
      assert t[1..] == a[json + 1..n];
      assert |t| > 1 ==> t[1] == a[json + 1];
      if a[json] == '*' && a[json + 1] == '/' {
        assert t[2..] == a[json + 2..n];
        json := json + 2;
        return;
      }
      json := json + 1;
    }
    assert a[json..n] == [];
  }

  /** Where the literal that is being read at `j` ends. */
  function LiteralEnd(s: string, j: nat): (r: nat)
    requires j <= |s|
    ensures j <= r <= |s|
  {
    j + StringLength(s[j..])
  }

  /** One step along a literal. */
  lemma LiteralStep(s: string, j: nat)
    requires j < |s|
    ensures s[j] == QUOTE ==> LiteralEnd(s, j) == j + 1
    ensures s[j] == BACKSLASH && j + 1 < |s| && s[j + 1] == QUOTE ==> LiteralEnd(s, j) == LiteralEnd(s, j + 2)
    ensures s[j] != QUOTE && !(s[j] == BACKSLASH && j + 1 < |s| && s[j + 1] == QUOTE)
            ==> LiteralEnd(s, j) == LiteralEnd(s, j + 1)
  {
    var t := s[j..];
    assert t[1..] == s[j + 1..];
    if j + 1 < |s| { assert t[2..] == s[j + 2..]; }
  }

  /**
   `minify_string`: copies the literal that starts at `start` down to `target`. Nothing at or behind
   the new write position changes.
   */
  method CopyString(a: array<char>, start: nat, target: nat, ghost s: string) returns (json: nat, into: nat)
    requires Holds(a, |s|) && NulFree(s) && target <= start < |s| && s[start] == QUOTE
    requires forall i {:trigger a[i]} :: start <= i < |s| ==> a[i] == s[i]
    modifies a
    ensures Holds(a, |s|) && start < json <= |s| && json - into == start - target
    ensures json == LiteralEnd(s, start + 1)
    ensures forall i :: target <= i < into ==> a[i] == s[i + (start - target)]
    ensures forall i {:trigger a[i]} :: 0 <= i < target || into <= i < a.Length ==> a[i] == old(a[i])
  {
    hide LiteralEnd;
    ghost var n, gap := |s|, start - target;
    a[target] := a[start];
    json, into := start + 1, target + 1;
    while a[json] != NUL
      invariant start < json <= n && json == into + gap
      invariant forall i {:trigger a[i]} :: target <= i < into ==> a[i] == s[i + gap]
      invariant forall i {:trigger a[i]} :: 0 <= i < target || into <= i < a.Length ==> a[i] == old(a[i])
      invariant LiteralEnd(s, json) == LiteralEnd(s, start + 1)
      decreases n - json
    {
      LiteralStep(s, json);
      a[into] := a[json];
      if a[json] == QUOTE {
        a[into] := QUOTE;
        json, into := json + 1, into + 1;
        return;
      } else if a[json] == BACKSLASH && a[json + 1] == QUOTE {
        a[into + 1] := a[json + 1];
        json, into := json + 1, into + 1;
      }
      json, into := json + 1, into + 1;
    }
  }

  /** A whole literal, on what is still to read. */
  lemma MinifyLiteral(s: string, j: nat)
    requires j < |s| && s[j] == QUOTE
    ensures var k := LiteralEnd(s, j + 1);
            Minified(s[j..]) == s[j..k] + Minified(s[k..])
  {
    var t, rest := s[j..], s[j + 1..];
    var n := StringLength(rest);
    var k := j + 1 + n;
    assert t[0] == QUOTE && t[1..] == rest && rest[n..] == s[k..];
    hide StringLength;
    assert InString(rest) == rest[..n] + Minified(s[k..]) by {
      if rest == [] { assert s[k..] == []; }
    }
    hide *;
    assert s[j..k] == [QUOTE] + rest[..n];
    Behind([QUOTE], rest[..n], s[j..k], Minified(s[k..]));
  }

  /** One step of the minifier outside literals, on what is still to read. */
  lemma MinifyStep(s: string, j: nat)
    requires j < |s|
    ensures IsBlank(s[j]) ==> Minified(s[j..]) == Minified(s[j + 1..])
    ensures s[j] == '/' ==>
              Minified(s[j..])
              == if j + 1 < |s| && s[j + 1] == '/' then Minified(AfterLine(s[j + 2..]))
                 else if j + 1 < |s| && s[j + 1] == '*' then Minified(AfterBlock(s[j + 2..]))
                 else Minified(s[j + 1..])
    ensures !IsBlank(s[j]) && s[j] != '/' && s[j] != QUOTE ==> Minified(s[j..]) == [s[j]] + Minified(s[j + 1..])
  {
    var t := s[j..];
    assert t[1..] == s[j + 1..];
    if j + 1 < |s| { assert t[2..] == s[j + 2..]; }
  }

  /** One round of the loop of `cJSON_Minify`. */
  method MinifyRound(a: array<char>, start: nat, target: nat, ghost s: string) returns (json: nat, into: nat)
    requires Holds(a, |s|) && NulFree(s) && target <= start < |s|
    requires forall i :: start <= i < |s| ==> a[i] == s[i]
    modifies a
    ensures Holds(a, |s|) && start < json <= |s| && target <= into <= json
    ensures forall i :: 0 <= i < target || into <= i < a.Length ==> a[i] == old(a[i])
    ensures a[target..into] + Minified(s[json..]) == Minified(s[start..])
  {
    hide Minified, AfterLine, AfterBlock, LiteralEnd;
    MinifyStep(s, start);
    json, into := start, target;
    if a[json] == ' ' || a[json] == TAB || a[json] == RETURN || a[json] == NEWLINE {
      json := json + 1;
      assert a[target..into] == [];
    } else if a[json] == '/' {
      assert json + 1 < |s| ==> a[start + 2..|s|] == s[start + 2..];
      if a[json + 1] == '/' {
        json := SkipLine(a, json, |s|);
      } else if a[json + 1] == '*' {
        json := SkipBlock(a, json, |s|);
      } else {
        json := json + 1;
      }
      assert a[target..into] == [];
      assert a[json..|s|] == s[json..];
    } else if a[json] == QUOTE {
      MinifyLiteral(s, start);
      json, into := CopyString(a, json, into, s);
      assert a[target..into] == s[start..json];
    } else {
      a[into] := a[json];
      json, into := json + 1, into + 1;
      assert a[target..into] == [s[start]];
    }
  }

  /**
   `cJSON_Minify`: the C string becomes its minified text, the write position never passes the read
   position, and no byte behind the new terminator changes.
   */
  method MinifyInPlace(a: array<char>, ghost n: nat)
    requires Holds(a, n)
    modifies a
    ensures Holds(a, |Minified(old(a[..n]))|)
    ensures a[..|Minified(old(a[..n]))|] == Minified(old(a[..n]))
    ensures forall i :: |Minified(old(a[..n]))| < i < a.Length ==> a[i] == old(a[i])
  {
    hide Minified;
    ghost var s := a[..n];
    var json, into := 0, 0;
    assert s[0..] == s;
    while a[json] != NUL
      invariant into <= json <= n && Holds(a, n)
      invariant forall i :: into <= i < a.Length ==> a[i] == old(a[i])
      invariant a[..into] + Minified(s[json..]) == Minified(s)
      decreases n - json
    {
      ghost var start, target, done := json, into, a[..into];
      json, into := MinifyRound(a, json, into, s);
      Behind(done, a[target..into], a[..into], Minified(s[json..]));
    }
    NothingLeft(s[json..]);
    assert a[..into] == Minified(s);
    a[into] := NUL;
    assert a[..into] == Minified(s);
  }

  lemma NothingLeft(s: string)
    requires s == []
    ensures Minified(s) == []
  {}

  /** A piece written behind what is there already. */
  lemma Behind(done: string, piece: string, now: string, rest: string)
    requires now == done + piece
    ensures now + rest == done + (piece + rest)
  {}
}

/**
 C strings and the byte-wise comparisons built on them. A C string is the sequence of its bytes
 before the terminating NUL; a byte is a `char` below 256.
 */
module CString {

  datatype Option<+T> = None | Some(value: T)

  /** A string a C program can hold: bytes, none of them NUL. */
  predicate IsCString(s: string) {
    forall i :: 0 <= i < |s| ==> 0 < s[i] as int < 256
  }

  /** `tolower` in the "C" locale. */
  function Lower(c: char): char {
    if 'A' <= c <= 'Z' then c - 'A' + 'a' else c
  }

  /** The byte a comparison looks at: itself, or its lower-case form. */
  function Norm(c: char, caseSensitive: bool): char {
    if caseSensitive then c else Lower(c)
  }

  /** The whole string as a comparison sees it. */
  function Fold(s: string, caseSensitive: bool): (r: string)
    ensures |r| == |s|
    ensures forall i :: 0 <= i < |s| ==> r[i] == Norm(s[i], caseSensitive)
  {
    seq(|s|, i requires 0 <= i < |s| => Norm(s[i], caseSensitive))
  }

  /** Concatenation is associative. */
  lemma Associative<T>(a: seq<T>, b: seq<T>, c: seq<T>)
    ensures (a + b) + c == a + (b + c)
  {}

  /** Three-way comparison, only the sign matters. The end of a string sorts before every byte. */
  function CompareStrings(a: string, b: string, caseSensitive: bool): int {
    if a == [] && b == [] then 0
    else if a == [] then -1
    else if b == [] then 1
    else if Norm(a[0], caseSensitive) < Norm(b[0], caseSensitive) then -1
    else if Norm(a[0], caseSensitive) > Norm(b[0], caseSensitive) then 1
    else CompareStrings(a[1..], b[1..], caseSensitive)
  }

  /** Two strings compare equal exactly when their folded forms are the same string. */
  lemma {:induction false} CompareZero(a: string, b: string, caseSensitive: bool)
    ensures CompareStrings(a, b, caseSensitive) == 0 <==> Fold(a, caseSensitive) == Fold(b, caseSensitive)
  {
    var fa, fb := Fold(a, caseSensitive), Fold(b, caseSensitive);
    if a != [] && b != [] {
      CompareZero(a[1..], b[1..], caseSensitive);
      assert fa == [Norm(a[0], caseSensitive)] + Fold(a[1..], caseSensitive);
      assert fb == [Norm(b[0], caseSensitive)] + Fold(b[1..], caseSensitive);
      assert fa == fb ==> fa[1..] == fb[1..];
      assert fa[1..] == Fold(a[1..], caseSensitive);
      assert fb[1..] == Fold(b[1..], caseSensitive);
    }
  }

  lemma FoldIsIdentity(s: string)
    ensures Fold(s, true) == s
  {}

  /** Swapping the arguments flips the sign. */
  lemma {:induction false} CompareFlips(a: string, b: string, caseSensitive: bool)
    ensures CompareStrings(a, b, caseSensitive) == -CompareStrings(b, a, caseSensitive)
  {
    if a != [] && b != [] {
      CompareFlips(a[1..], b[1..], caseSensitive);
    }
  }

  /** "Not after" is transitive, and strict as soon as one of the two steps is. */
  lemma {:induction false} CompareTransitive(a: string, b: string, c: string, caseSensitive: bool)
    requires CompareStrings(a, b, caseSensitive) <= 0
    requires CompareStrings(b, c, caseSensitive) <= 0
    ensures CompareStrings(a, c, caseSensitive) <= 0
    ensures CompareStrings(a, b, caseSensitive) < 0 || CompareStrings(b, c, caseSensitive) < 0
            ==> CompareStrings(a, c, caseSensitive) < 0
  {
    if a != [] && b != [] && c != [] &&
       Norm(a[0], caseSensitive) == Norm(b[0], caseSensitive) == Norm(c[0], caseSensitive) {
      CompareTransitive(a[1..], b[1..], c[1..], caseSensitive);
    }
  }

  /** Two bytes count as one exactly when they are the same, or, ignoring case, the two forms of a letter. */
  lemma NormExactly(a: char, b: char)
    ensures Norm(a, true) == Norm(b, true) <==> a == b
    ensures Norm(a, false) == Norm(b, false) <==>
              || a == b
              || (65 <= a as int <= 90 && b as int == a as int + 32)
              || (65 <= b as int <= 90 && a as int == b as int + 32)
  {}

  /** Capital letters are looked at as small ones, everything else as it is. */
  lemma NormIs(c: char)
    ensures Norm(c, true) == c
    ensures Norm(c, false) as int == if 65 <= c as int <= 90 then c as int + 32 else c as int
  {}

  /** The strings agree up to position `k`; there the first one ends or has the smaller byte. */
  predicate LessAt(a: string, b: string, k: nat, caseSensitive: bool) {
    && k <= |a| && k < |b|
    && (forall i :: 0 <= i < k ==> Norm(a[i], caseSensitive) == Norm(b[i], caseSensitive))
    && (k == |a| || Norm(a[k], caseSensitive) < Norm(b[k], caseSensitive))
  }

  lemma {:induction false} LessThere(a: string, b: string, caseSensitive: bool) returns (k: nat)
    requires CompareStrings(a, b, caseSensitive) < 0
    ensures LessAt(a, b, k, caseSensitive)
  {
    if a == [] || Norm(a[0], caseSensitive) < Norm(b[0], caseSensitive) {
      k := 0;
    } else {
      var later := LessThere(a[1..], b[1..], caseSensitive);
      k := later + 1;
      forall i | 0 <= i < k ensures Norm(a[i], caseSensitive) == Norm(b[i], caseSensitive) {
        if i > 0 { assert a[i] == a[1..][i - 1] && b[i] == b[1..][i - 1]; }
      }
    }
  }

  lemma {:induction false} LessThen(a: string, b: string, k: nat, caseSensitive: bool)
    requires LessAt(a, b, k, caseSensitive)
    ensures CompareStrings(a, b, caseSensitive) < 0
  {
    if k > 0 {
      assert Norm(a[0], caseSensitive) == Norm(b[0], caseSensitive);
      assert forall i :: 0 <= i < k - 1 ==> a[1..][i] == a[i + 1] && b[1..][i] == b[i + 1];
      LessThen(a[1..], b[1..], k - 1, caseSensitive);
    }
  }

  /** The order is the lexicographic one. */
  lemma CompareIsLexicographic(a: string, b: string, caseSensitive: bool)
    ensures CompareStrings(a, b, caseSensitive) < 0 <==> exists k :: LessAt(a, b, k, caseSensitive)
  {
    if CompareStrings(a, b, caseSensitive) < 0 {
      var k := LessThere(a, b, caseSensitive);
    }
    if k :| LessAt(a, b, k, caseSensitive) {
      LessThen(a, b, k, caseSensitive);
    }
  }
}

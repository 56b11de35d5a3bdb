/**
 What number the parser reads: the decimal numerals with an optional point and exponent, and the value
 each denotes, stated with whole numbers only.
 */
module Numerals {
  import opened CString
  import opened Digits
  import opened Json
  import opened Parse
  import Render
  import opened RoundTrip

  datatype Sign = Unsigned | Plus | Minus

  datatype Exponent = Exponent(letter: char, sign: Sign, digits: string)

  /** `-12.50e+3` is `Numeral(Minus, "12", true, "50", Some(Exponent('e', Plus, "3")))`. */
  datatype Numeral = Numeral(sign: Sign, whole: string, point: bool, fraction: string, exponent: Option<Exponent>)

  predicate WellFormed(n: Numeral) {
    && AllDigits(n.whole) && AllDigits(n.fraction) && n.whole + n.fraction != ""
    && (n.point || n.fraction == "")
    && (n.exponent.Some? ==>
          && (n.exponent.value.letter == 'e' || n.exponent.value.letter == 'E')
          && AllDigits(n.exponent.value.digits) && n.exponent.value.digits != "")
  }

  function SignText(sign: Sign): string {
    match sign case Unsigned => "" case Plus => "+" case Minus => "-"
  }

  function ExponentText(exponent: Option<Exponent>): string {
    match exponent
    case None => ""
    case Some(Exponent(letter, sign, digits)) => [letter] + SignText(sign) + digits
  }

  function Mantissa(n: Numeral): string {
    SignText(n.sign) + n.whole + (if n.point then "." + n.fraction else "")
  }

  function Spell(n: Numeral): string {
    Mantissa(n) + ExponentText(n.exponent)
  }

  function Signed(sign: Sign, digits: string): int
    requires AllDigits(digits)
  {
    if sign == Minus then 0 - Accumulate(digits, 0) else Accumulate(digits, 0)
  }

  lemma DigitsTogether(a: string, b: string)
    requires AllDigits(a) && AllDigits(b)
    ensures AllDigits(a + b)
  {}

  function Power(n: Numeral): int
    requires WellFormed(n)
  {
    if n.exponent.None? then 0 else Signed(n.exponent.value.sign, n.exponent.value.digits)
  }

  /** `x` times ten to the power of `shift` is `all`. */
  predicate Shifts(x: real, shift: int, all: int) {
    if shift >= 0 then x * Ten(shift) as real == all as real else x == all as real * Ten(0 - shift) as real
  }

  /** `x`, times ten to the number of fraction digits less the exponent, is the whole number all the digits make. */
  predicate Denotes(n: Numeral, x: real)
    requires WellFormed(n)
  {
    DigitsTogether(n.whole, n.fraction);
    Shifts(x, |n.fraction| - Power(n), Signed(n.sign, n.whole + n.fraction))
  }

  lemma ShiftsOne(x: real, y: real, shift: int, all: int)
    requires Shifts(x, shift, all) && Shifts(y, shift, all)
    ensures x == y
  {
    if shift >= 0 {
      TenPositive(shift);
      SameFactor(x, y, Ten(shift) as real);
    }
  }

  /** No other number does. */
  lemma DenotesOne(n: Numeral, x: real, y: real)
    requires WellFormed(n) && Denotes(n, x) && Denotes(n, y)
    ensures x == y
  {
    DigitsTogether(n.whole, n.fraction);
    hide Shifts, Accumulate, AllDigits;
    ShiftsOne(x, y, |n.fraction| - Power(n), Signed(n.sign, n.whole + n.fraction));
  }

  lemma {:induction false} TenPositive(k: nat)
    ensures Ten(k) > 0
  {
    if k > 0 { TenPositive(k - 1); }
  }

  lemma SameFactor(x: real, y: real, t: real)
    requires t > 0.0 && x * t == y * t
    ensures x == y
  {
    assert (x - y) * t == 0.0;
  }

  /** What follows is a longer numeral. */
  predicate Continues(n: Numeral, tail: string) {
    tail != "" &&
    (|| IsDigit(tail[0])
     || (n.exponent.None? && !n.point && tail[0] == '.')
     || (n.exponent.None? && (tail[0] == 'e' || tail[0] == 'E') && StartsExponent(tail[1..])))
  }

  predicate StartsExponent(t: string) {
    var i := SkipSign(t, 0);
    i < |t| && IsDigit(t[i])
  }

  // ---- Powers of ten ------------------------------------------------------------------------

  lemma {:induction false} Pow10Up(k: nat)
    ensures Pow10(k) == Ten(k) as real
  {
    if k > 0 { Pow10Up(k - 1); }
  }

  lemma {:induction false} Pow10Down(k: nat)
    ensures Pow10(0 - k) * Ten(k) as real == 1.0
  {
    if k > 0 {
      Pow10Down(k - 1);
      assert Pow10(0 - k) == Pow10(1 - k) / 10.0;
      Tenth(Pow10(1 - k), Ten(k - 1) as real);
    }
  }

  lemma Tenth(p: real, t: real)
    requires p * t == 1.0
    ensures (p / 10.0) * (10.0 * t) == 1.0
  {
    assert (p / 10.0) * 10.0 == p;
  }

  lemma Scaled(all: int, shift: int)
    ensures Shifts(all as real * Pow10(0 - shift), shift, all)
  {
    if shift >= 0 {
      Pow10Down(shift);
      Regrouped(all as real, Pow10(0 - shift), Ten(shift) as real);
    } else {
      Pow10Up(0 - shift);
    }
  }

  lemma Regrouped(a: real, b: real, c: real)
    requires b * c == 1.0
    ensures (a * b) * c == a
  {
    assert (a * b) * c == a * (b * c);
  }

  // ---- Reading ------------------------------------------------------------------------------

  lemma {:induction false} DigitsStop(s: string, i: nat, j: nat)
    requires i <= j <= |s| && AllDigits(s[i..j]) && (j < |s| ==> !IsDigit(s[j]))
    ensures DigitsEnd(s, i) == j
    decreases j - i
  {
    if i < j {
      assert s[i..j][0] == s[i] && s[i + 1..j] == s[i..j][1..];
      DigitsStop(s, i + 1, j);
    }
  }

  /** From position `i` on there is `q`, to the end. */
  ghost predicate From(s: string, i: nat, q: string) {
    i <= |s| && s[i..] == q
  }

  ghost predicate Piece(s: string, i: nat, j: nat, p: string) {
    i <= j <= |s| && s[i..j] == p
  }

  /** `p` at position `i`, and then `q`. */
  lemma Slice(s: string, i: nat, p: string, q: string)
    requires From(s, i, p + q)
    ensures From(s, i + |p|, q) && Piece(s, i, i + |p|, p)
    ensures i + |p| <= |s| && (i + |p| < |s| <==> q != "")
    ensures q != "" ==> s[i + |p|] == q[0]
    ensures p != "" ==> s[i] == p[0]
  {
    assert (p + q)[..|p|] == p && (p + q)[|p|..] == q;
    assert s[i..][..|p|] == s[i..i + |p|];
    assert s[i..][|p|..] == s[i + |p|..];
  }

  lemma FromStart(s: string)
    ensures From(s, 0, s)
  {}

  /** A run of digits. */
  lemma ReadsRun(s: string, i: nat, p: string, q: string)
    requires From(s, i, p + q) && AllDigits(p) && (q != "" ==> !IsDigit(q[0]))
    ensures From(s, i + |p|, q) && Piece(s, i, i + |p|, p)
    ensures i + |p| <= |s| && DigitsEnd(s, i) == i + |p|
    ensures i + |p| < |s| <==> q != ""
    ensures q != "" ==> s[i + |p|] == q[0]
  {
    Slice(s, i, p, q);
    DigitsStop(s, i, i + |p|);
  }

  lemma ReadsSign(sign: Sign, rest: string, s: string, at: nat)
    requires From(s, at, SignText(sign) + rest) && rest != "" && rest[0] != '-' && rest[0] != '+'
    ensures at < |s| && (s[at] == '-' <==> sign == Minus)
    ensures SkipSign(s, at) == at + |SignText(sign)| && From(s, at + |SignText(sign)|, rest)
  {
    Slice(s, at, SignText(sign), rest);
    assert sign == Unsigned ==> s[at] == rest[0];
  }

  function PointText(n: Numeral): string {
    if n.point then "." + n.fraction else ""
  }

  /** The text from each part on. */
  lemma Spelled(n: Numeral, tail: string)
    ensures Spell(n) + tail == SignText(n.sign) + (n.whole + (PointText(n) + (ExponentText(n.exponent) + tail)))
    ensures |Mantissa(n)| == |SignText(n.sign)| + |n.whole| + |PointText(n)|
  {
    Associative(Mantissa(n), ExponentText(n.exponent), tail);
    Associative(SignText(n.sign) + n.whole, PointText(n), ExponentText(n.exponent) + tail);
    Associative(SignText(n.sign), n.whole, PointText(n) + (ExponentText(n.exponent) + tail));
  }

  lemma FirstOfRest(n: Numeral, tail: string)
    requires WellFormed(n) && !Continues(n, tail)
    ensures var rest := ExponentText(n.exponent) + tail;
            && (rest != "" ==> !IsDigit(rest[0]) && (!n.point ==> rest[0] != '.'))
            && var all := n.whole + (PointText(n) + rest); all != "" && all[0] != '-' && all[0] != '+'
  {
    var rest := ExponentText(n.exponent) + tail;
    if n.exponent.Some? { assert rest[0] == n.exponent.value.letter; } else { assert rest == tail; }
  }

  /** Sign, digits, point and digits, as `StringToDouble` finds them. */
  ghost predicate FindsMantissa(n: Numeral, s: string, rest: string) {
    var a := |SignText(n.sign)|;
    var b := a + |n.whole|;
    var c := |Mantissa(n)|;
    && s != "" && (s[0] == '-' <==> n.sign == Minus) && SkipSign(s, 0) == a
    && FindsDigits(n, s, a, c, rest)
  }

  ghost predicate FindsDigits(n: Numeral, s: string, a: nat, c: nat, rest: string) {
    var b := a + |n.whole|;
    && b <= c <= |s| && DigitsEnd(s, a) == b && Piece(s, a, b, n.whole)
    && (b < |s| && s[b] == '.' <==> n.point)
    && (if n.point then c == b + 1 + |n.fraction| && DigitsEnd(s, b + 1) == c && Piece(s, b + 1, c, n.fraction) else c == b)
    && From(s, c, rest)
  }

  lemma MantissaSign(n: Numeral, tail: string, s: string, all: string)
    requires WellFormed(n) && s == Spell(n) + tail && !Continues(n, tail)
    requires all == n.whole + (PointText(n) + (ExponentText(n.exponent) + tail))
    ensures s != "" && (s[0] == '-' <==> n.sign == Minus) && SkipSign(s, 0) == |SignText(n.sign)|
    ensures From(s, |SignText(n.sign)|, all)
  {
    Spelled(n, tail);
    FirstOfRest(n, tail);
    FromStart(s);
    hide *;
    ReadsSign(n.sign, all, s, 0);
  }

  lemma ReadsMantissa(n: Numeral, tail: string, s: string)
    requires WellFormed(n) && s == Spell(n) + tail && !Continues(n, tail)
    ensures FindsMantissa(n, s, ExponentText(n.exponent) + tail)
  {
    hide *;
    var rest := ExponentText(n.exponent) + tail;
    Spelled(n, tail);
    FirstOfRest(n, tail);
    MantissaSign(n, tail, s, n.whole + (PointText(n) + rest));
    ReadsDigits(n, s, |SignText(n.sign)|, rest);
    FoundMantissa(n, s, rest);
  }

  lemma FoundMantissa(n: Numeral, s: string, rest: string)
    requires s != "" && (s[0] == '-' <==> n.sign == Minus) && SkipSign(s, 0) == |SignText(n.sign)|
    requires |Mantissa(n)| == |SignText(n.sign)| + |n.whole| + |PointText(n)|
    requires FindsDigits(n, s, |SignText(n.sign)|, |SignText(n.sign)| + |n.whole| + |PointText(n)|, rest)
    ensures FindsMantissa(n, s, rest)
  {
    hide FindsDigits, SkipSign, Mantissa;
  }

  lemma ReadsDigits(n: Numeral, s: string, a: nat, rest: string)
    requires WellFormed(n) && From(s, a, n.whole + (PointText(n) + rest))
    requires rest != "" ==> !IsDigit(rest[0]) && (!n.point ==> rest[0] != '.')
    ensures FindsDigits(n, s, a, a + |n.whole| + |PointText(n)|, rest)
  {
    hide DigitsEnd, AllDigits, From, Piece;
    var b := a + |n.whole|;
    if n.point {
      Associative(".", n.fraction, rest);
      ReadsRun(s, a, n.whole, PointText(n) + rest);
      Slice(s, b, ".", n.fraction + rest);
      ReadsRun(s, b + 1, n.fraction, rest);
    } else {
      assert PointText(n) + rest == rest;
      ReadsRun(s, a, n.whole, rest);
    }
  }

  lemma ExponentSpelled(e: Exponent, tail: string)
    ensures ExponentText(Some(e)) + tail == [e.letter] + (SignText(e.sign) + (e.digits + tail))
    ensures |ExponentText(Some(e))| == 1 + |SignText(e.sign)| + |e.digits|
  {
    Associative([e.letter], SignText(e.sign), e.digits);
    Associative([e.letter], SignText(e.sign) + e.digits, tail);
    Associative(SignText(e.sign), e.digits, tail);
  }

  /** The exponent behind the mantissa, or none. */
  ghost predicate FindsExponent(exponent: Option<Exponent>, s: string, c: nat) {
    var here := c < |s| && (s[c] == 'e' || s[c] == 'E');
    match exponent
    case None => here ==> DigitsEnd(s, SkipSign(s, c + 1)) == SkipSign(s, c + 1)
    case Some(e) =>
      && here && c + 1 < |s| && (s[c + 1] == '-' <==> e.sign == Minus)
      && var from := SkipSign(s, c + 1);
         e.digits != "" && DigitsEnd(s, from) == from + |e.digits| == c + |ExponentText(exponent)|
         && Piece(s, from, from + |e.digits|, e.digits)
  }

  lemma ReadsExponent(n: Numeral, tail: string, s: string, c: nat)
    requires WellFormed(n) && !Continues(n, tail) && From(s, c, ExponentText(n.exponent) + tail)
    ensures FindsExponent(n.exponent, s, c)
  {
    match n.exponent
    case None =>
      assert ExponentText(n.exponent) + tail == tail;
      NoExponent(tail, s, c);
    case Some(e) => ReadsSome(e, tail, s, c);
  }

  lemma ReadsSome(e: Exponent, tail: string, s: string, c: nat)
    requires (e.letter == 'e' || e.letter == 'E') && AllDigits(e.digits) && e.digits != ""
    requires From(s, c, ExponentText(Some(e)) + tail) && (tail != "" ==> !IsDigit(tail[0]))
    ensures FindsExponent(Some(e), s, c)
  {
    var digits := e.digits + tail;
    ExponentSpelled(e, tail);
    DigitsInFront(e.digits, tail);
    hide *;
    Slice(s, c, [e.letter], SignText(e.sign) + digits);
    ReadsSign(e.sign, digits, s, c + 1);
    ReadsRun(s, c + 1 + |SignText(e.sign)|, e.digits, tail);
    FoundExponent(e, s, c);
  }

  lemma FoundExponent(e: Exponent, s: string, c: nat)
    requires (e.letter == 'e' || e.letter == 'E') && e.digits != ""
    requires c + 1 < |s| && s[c] == e.letter && (s[c + 1] == '-' <==> e.sign == Minus)
    requires |ExponentText(Some(e))| == 1 + |SignText(e.sign)| + |e.digits|
    requires var from := SkipSign(s, c + 1);
             && from == c + 1 + |SignText(e.sign)| && DigitsEnd(s, from) == from + |e.digits|
             && Piece(s, from, from + |e.digits|, e.digits)
    ensures FindsExponent(Some(e), s, c)
  {
    hide Piece, DigitsEnd, SkipSign, ExponentText, SignText;
  }

  lemma DigitsInFront(digits: string, tail: string)
    requires AllDigits(digits) && digits != ""
    ensures digits + tail != "" && (digits + tail)[0] != '-' && (digits + tail)[0] != '+'
  {
    assert (digits + tail)[0] == digits[0];
  }

  lemma NoExponent(tail: string, s: string, c: nat)
    requires From(s, c, tail)
    requires tail != "" && (tail[0] == 'e' || tail[0] == 'E') ==> !StartsExponent(tail[1..])
    ensures c < |s| && (s[c] == 'e' || s[c] == 'E') ==> DigitsEnd(s, SkipSign(s, c + 1)) == SkipSign(s, c + 1)
  {
    if c < |s| && (s[c] == 'e' || s[c] == 'E') {
      assert s[c..][1..] == s[c + 1..];
      var i := SkipSign(s, c + 1);
      if i < |s| { assert s[i] == s[c + 1..][i - c - 1]; }
    }
  }

  function Product(all: int, power: real): real {
    all as real * power
  }

  /** The value a conversion puts together is the one the numeral denotes. */
  lemma Computes(n: Numeral)
    requires WellFormed(n)
    ensures AllDigits(n.whole + n.fraction)
    ensures Denotes(n, Product(Signed(n.sign, n.whole + n.fraction), Pow10(Power(n) - |n.fraction|)))
  {
    hide Accumulate, Ten, Pow10;
    DigitsTogether(n.whole, n.fraction);
    Scaled(Signed(n.sign, n.whole + n.fraction), |n.fraction| - Power(n));
  }

  /** A numeral is read whole, whatever follows that does not continue it, and has the value it denotes. */
  lemma Reads(n: Numeral, tail: string)
    requires WellFormed(n) && !Continues(n, tail)
    ensures var d := StringToDouble(Spell(n) + tail);
            d.end == |Spell(n)| && Denotes(n, d.value)
  {
    var s := Spell(n) + tail;
    ReadsMantissa(n, tail, s);
    ReadsExponent(n, tail, s, |Mantissa(n)|);
    Computes(n);
    Converts(n, s, ExponentText(n.exponent) + tail);
  }

  lemma Converts(n: Numeral, s: string, rest: string)
    requires WellFormed(n) && FindsMantissa(n, s, rest) && FindsExponent(n.exponent, s, |Mantissa(n)|)
    requires AllDigits(n.whole + n.fraction)
    ensures StringToDouble(s) == Decimals(Product(Signed(n.sign, n.whole + n.fraction), Pow10(Power(n) - |n.fraction|)), |Spell(n)|)
  {
    var c := ScanNumber(s);
    Scans(n, s, rest);
    if n.exponent.None? { NoExponentText(n); }
    PowerIs(n, s, c);
    SignedIs(n.sign, n.whole + n.fraction, s[0] == '-');
    assert n.whole + n.fraction != "";
    hide *;
    PutTogether(s, n.whole + n.fraction, Power(n) - |n.fraction|);
  }

  lemma SignedIs(sign: Sign, digits: string, negative: bool)
    requires AllDigits(digits) && (negative <==> sign == Minus)
    ensures Negate(Accumulate(digits, 0), negative) == Signed(sign, digits)
  {}

  lemma PowerIs(n: Numeral, s: string, c: Scan)
    requires WellFormed(n) && c == ScanNumber(s) && (n.exponent.Some? <==> c.exponentEnd > c.exponent)
    requires n.exponent.Some? ==>
               s[c.exponent..c.exponentEnd] == n.exponent.value.digits && (s[c.end + 1] == '-' <==> n.exponent.value.sign == Minus)
    ensures Power(n) == if c.exponentEnd > c.exponent
                        then Negate(Accumulate(s[c.exponent..c.exponentEnd], 0), s[c.end + 1] == '-') else 0
  {
    hide ScanNumber, Accumulate;
  }

  /** The arithmetic on the pieces of the scan. */
  lemma PutTogether(s: string, digits: string, power: int)
    requires var c := ScanNumber(s);
             && digits == s[c.start..c.point] + s[c.fraction..c.end] && digits != "" && AllDigits(digits)
             && power == (if c.exponentEnd > c.exponent
                          then Negate(Accumulate(s[c.exponent..c.exponentEnd], 0), s[c.end + 1] == '-') else 0)
                         - (c.end - c.fraction)
    ensures var c := ScanNumber(s);
            StringToDouble(s) == Decimals(Product(Negate(Accumulate(digits, 0), s[0] == '-'), Pow10(power)),
                                          if c.exponentEnd > c.exponent then c.exponentEnd else c.end)
  {
    hide ScanNumber, Accumulate, Pow10, AllDigits;
  }

  /** The pieces of the scan are those of the numeral. */
  lemma Scans(n: Numeral, s: string, rest: string)
    requires WellFormed(n) && FindsMantissa(n, s, rest) && FindsExponent(n.exponent, s, |Mantissa(n)|)
    ensures var c := ScanNumber(s);
            && s[c.start..c.point] == n.whole && s[c.fraction..c.end] == n.fraction && c.end - c.fraction == |n.fraction|
            && c.end == |Mantissa(n)| && s != "" && (s[0] == '-' <==> n.sign == Minus)
            && (n.exponent.Some? <==> c.exponentEnd > c.exponent)
            && (n.exponent.Some? ==> s[c.exponent..c.exponentEnd] == n.exponent.value.digits && c.exponentEnd == |Spell(n)|
                                     && (s[c.end + 1] == '-' <==> n.exponent.value.sign == Minus))
  {
    hide SkipSign, DigitsEnd, AllDigits, From, Mantissa, ExponentText, SignText;
  }

  lemma NoExponentText(n: Numeral)
    requires n.exponent.None?
    ensures Spell(n) == Mantissa(n)
  {}

  // ---- Numerals in the input ----------------------------------------------------------------

  lemma SpellsNumberChars(n: Numeral)
    requires WellFormed(n)
    ensures forall i :: 0 <= i < |Spell(n)| ==> IsNumberChar(Spell(n)[i])
  {}

  lemma FirstNumberChar(s: string, limit: nat)
    requires s != "" && IsNumberChar(s[0]) && limit > 0
    ensures NumberText(s, limit) == [s[0]] + NumberText(s[1..], limit - 1)
  {}

  lemma {:induction false} NumberTextSplits(text: string, rest: string, limit: nat)
    requires |text| <= limit && forall i :: 0 <= i < |text| ==> IsNumberChar(text[i])
    ensures NumberText(text + rest, limit) == text + NumberText(rest, limit - |text|)
  {
    hide NumberText, IsNumberChar;
    if text == [] {
      assert text + rest == rest;
      assert [] + NumberText(rest, limit) == NumberText(rest, limit);
    } else {
      assert (text + rest)[0] == text[0] && (text + rest)[1..] == text[1..] + rest;
      FirstNumberChar(text + rest, limit);
      NumberTextSplits(text[1..], rest, limit - 1);
      Associative([text[0]], text[1..], NumberText(rest, limit - |text|));
      assert text == [text[0]] + text[1..];
    }
  }

  lemma LessContinues(n: Numeral, tail: string, rest: string)
    requires tail <= rest && Continues(n, tail)
    ensures Continues(n, rest)
  {
    assert forall i :: 0 <= i < |tail| ==> tail[i] == rest[i];
  }

  /**
   `parse_number`, on a numeral of at most 63 bytes and whatever follows it: the rest is left, and the value
   is the one number the numeral denotes.
   */
  lemma NumeralParses(n: Numeral, rest: string)
    requires WellFormed(n) && |Spell(n)| <= 63 && Terminated(rest) && !Continues(n, rest)
    ensures Terminated(Spell(n) + rest)
    ensures var r := ParseNumber(Spell(n) + rest);
            r.Success? && r.rest == rest && r.value.Number? && Denotes(n, r.value.num)
  {
    hide *;
    var tail := NumberText(rest, 63 - |Spell(n)|);
    SpellsNumberChars(n);
    NumberTextSplits(Spell(n), rest, 63);
    if Continues(n, tail) { LessContinues(n, tail, rest); }
    Reads(n, tail);
    SpellsSomething(n);
    TerminatedTail(Spell(n), rest);
    ParseNumberIs(Spell(n) + rest);
    Behind(Spell(n), rest);
  }

  lemma SpellsSomething(n: Numeral)
    requires WellFormed(n)
    ensures |Spell(n)| > 0
  {}

  lemma Behind(text: string, rest: string)
    ensures (text + rest)[|text|..] == rest
  {}

  lemma ParseNumberIs(s: string)
    requires Terminated(s)
    ensures var d := StringToDouble(NumberText(s, 63));
            && d.end <= |s|
            && ParseNumber(s) == if d.end == 0 then Failure(false) else Success(Number(d.value), s[d.end..])
  {
    hide StringToDouble, NumberText;
  }

  lemma {:induction false} DigitsAreAll(s: string, i: nat)
    requires i <= |s|
    ensures var j := DigitsEnd(s, i); j < |s| ==> !IsDigit(s[j])
    decreases |s| - i
  {
    if i < |s| && IsDigit(s[i]) { DigitsAreAll(s, i + 1); }
  }

  function SignAt(s: string, i: nat): Sign {
    if i < |s| && s[i] == '-' then Minus else if i < |s| && s[i] == '+' then Plus else Unsigned
  }

  function ExponentOf(s: string, end: nat): Option<Exponent>
    requires end <= |s|
  {
    if end < |s| && (s[end] == 'e' || s[end] == 'E') then
      var from := SkipSign(s, end + 1);
      var to := DigitsEnd(s, from);
      if to > from then Some(Exponent(s[end], SignAt(s, end + 1), s[from..to])) else None
    else None
  }

  /** The numeral in front of the text. */
  function NumeralOf(s: string): Numeral {
    var c := ScanNumber(s);
    Numeral(SignAt(s, 0), s[c.start..c.point], c.fraction > c.point, s[c.fraction..c.end], ExponentOf(s, c.end))
  }

  lemma SignIs(s: string, i: nat)
    requires i <= |s|
    ensures SkipSign(s, i) <= |s| && s[i..SkipSign(s, i)] == SignText(SignAt(s, i))
  {}

  lemma Glue(s: string, i: nat, j: nat, k: nat)
    requires i <= j <= k <= |s|
    ensures s[i..j] + s[j..k] == s[i..k]
  {}

  /** The exponent is there, and takes no more because it cannot. */
  ghost predicate Stops(s: string, end: nat, e: Option<Exponent>) {
    var stop := end + |ExponentText(e)|;
    && stop <= |s| && s[end..stop] == ExponentText(e)
    && match e
       case None => end < |s| && (s[end] == 'e' || s[end] == 'E') ==> !StartsExponent(s[end + 1..])
       case Some(x) =>
         && (x.letter == 'e' || x.letter == 'E') && AllDigits(x.digits) && x.digits != ""
         && (stop < |s| ==> !IsDigit(s[stop]))
  }

  lemma ExponentIs(s: string, end: nat)
    requires end <= |s|
    ensures Stops(s, end, ExponentOf(s, end))
  {
    if end < |s| && (s[end] == 'e' || s[end] == 'E') {
      var from := SkipSign(s, end + 1);
      DigitsAreAll(s, from);
      if DigitsEnd(s, from) > from {
        ExponentThere(s, end);
      } else {
        NothingStarts(s, end + 1);
        hide DigitsEnd, SkipSign, StartsExponent;
      }
    }
  }

  lemma ExponentSpells(s: string, end: nat)
    requires end < |s| && (s[end] == 'e' || s[end] == 'E') && DigitsEnd(s, SkipSign(s, end + 1)) > SkipSign(s, end + 1)
    ensures var from := SkipSign(s, end + 1);
            var to := DigitsEnd(s, from);
            var text := ExponentText(ExponentOf(s, end));
            ExponentOf(s, end).Some? && end + |text| == to && s[end..to] == text
  {
    var from := SkipSign(s, end + 1);
    var to := DigitsEnd(s, from);
    SignIs(s, end + 1);
    Glue(s, end, end + 1, from);
    Glue(s, end, from, to);
    assert s[end..end + 1] == [s[end]];
    hide DigitsEnd, SkipSign, SignText, SignAt;
  }

  lemma ExponentThere(s: string, end: nat)
    requires end < |s| && (s[end] == 'e' || s[end] == 'E') && DigitsEnd(s, SkipSign(s, end + 1)) > SkipSign(s, end + 1)
    ensures Stops(s, end, ExponentOf(s, end))
  {
    var from := SkipSign(s, end + 1);
    var to := DigitsEnd(s, from);
    hide DigitsEnd, SkipSign, SignAt, AllDigits, ExponentText, Stops;
    DigitsAreAll(s, from);
    ExponentSpells(s, end);
    StopsThere(s, end, Exponent(s[end], SignAt(s, end + 1), s[from..to]), to);
  }

  lemma StopsThere(s: string, end: nat, x: Exponent, to: nat)
    requires (x.letter == 'e' || x.letter == 'E') && AllDigits(x.digits) && x.digits != ""
    requires to <= |s| && to == end + |ExponentText(Some(x))| && s[end..to] == ExponentText(Some(x))
    requires to < |s| ==> !IsDigit(s[to])
    ensures Stops(s, end, Some(x))
  {
    hide ExponentText, AllDigits;
  }

  lemma NothingStarts(s: string, i: nat)
    requires i <= |s| && var from := SkipSign(s, i); from < |s| ==> !IsDigit(s[from])
    ensures !StartsExponent(s[i..])
  {
    var t := s[i..];
    assert forall j :: 0 <= j < |t| ==> t[j] == s[i + j];
    assert SkipSign(t, 0) == SkipSign(s, i) - i;
  }

  /** What the scan says of the text, byte by byte. */
  lemma Scanned(s: string)
    ensures var c := ScanNumber(s);
            && s[..c.start] == SignText(SignAt(s, 0))
            && (c.fraction > c.point ==> c.fraction == c.point + 1 && s[c.point..c.fraction] == ".")
            && (c.fraction == c.point ==> c.end == c.point && (c.end < |s| ==> s[c.end] != '.'))
            && (c.end < |s| ==> !IsDigit(s[c.end]))
  {
    var c := ScanNumber(s);
    SignIs(s, 0);
    assert s[0..c.start] == s[..c.start];
    DigitsAreAll(s, c.start);
    DigitsAreAll(s, c.fraction);
    hide DigitsEnd, SkipSign, SignAt, AllDigits;
  }

  lemma ScannedExponent(s: string)
    ensures var c := ScanNumber(s);
            c.end + |ExponentText(ExponentOf(s, c.end))| == if c.exponentEnd > c.exponent then c.exponentEnd else c.end
  {
    var c := ScanNumber(s);
    if c.exponentEnd > c.exponent { ExponentSpells(s, c.end); }
    hide DigitsEnd, SkipSign, SignAt, AllDigits, SignText;
  }

  /** The sign, the digits and the point. */
  lemma MantissaIs(s: string)
    ensures var n, c := NumeralOf(s), ScanNumber(s);
            && s[..c.end] == Mantissa(n) && n.exponent == ExponentOf(s, c.end)
            && AllDigits(n.whole) && AllDigits(n.fraction) && (n.point || n.fraction == "") && (n.point <==> c.fraction > c.point)
  {
    var n, c := NumeralOf(s), ScanNumber(s);
    Scanned(s);
    hide ScanNumber, SignAt, ExponentOf, AllDigits;
    Glue(s, 0, c.start, c.point);
    Glue(s, 0, c.point, c.fraction);
    Glue(s, 0, c.fraction, c.end);
    assert s[0..c.end] == s[..c.end] && s[0..c.start] == s[..c.start];
    if n.point {
      Associative(s[0..c.point], ".", s[c.fraction..c.end]);
    } else {
      assert s[0..c.point] + "" == s[0..c.point];
    }
  }

  lemma EndIs(s: string)
    ensures var n, end := NumeralOf(s), StringToDouble(s).end;
            if n.whole + n.fraction == "" then end == 0 else end == |Spell(n)|
  {
    MantissaIs(s);
    ScannedExponent(s);
    hide ScanNumber, Accumulate, Pow10, AllDigits, Mantissa, ExponentText, ExponentOf, SignAt;
  }

  /** Whatever is converted is a numeral, and as long a one as the text allows. */
  lemma ConvertsNumeral(s: string)
    requires StringToDouble(s).end > 0
    ensures var n, end := NumeralOf(s), StringToDouble(s).end;
            WellFormed(n) && s[..end] == Spell(n) && !Continues(n, s[end..])
  {
    var n, end := NumeralOf(s), StringToDouble(s).end;
    var c := ScanNumber(s).end;
    EndIs(s);
    MantissaIs(s);
    Scanned(s);
    ExponentIs(s, c);
    hide NumeralOf, StringToDouble, ScanNumber, ExponentOf, Mantissa, AllDigits, StartsExponent;
    Glue(s, 0, c, end);
    assert s[0..c] == s[..c] && s[0..end] == s[..end];
    NotContinued(n, s, c, end);
  }

  lemma NotContinued(n: Numeral, s: string, c: nat, end: nat)
    requires c <= end <= |s| && Stops(s, c, n.exponent) && end == c + |ExponentText(n.exponent)|
    requires c < |s| ==> !IsDigit(s[c]) && (s[c] == '.' ==> n.point)
    ensures !Continues(n, s[end..])
  {
    var tail := s[end..];
    assert tail != "" ==> tail[0] == s[end];
    assert n.exponent.None? ==> end == c;
    assert tail != "" ==> tail[1..] == s[end + 1..];
    hide StartsExponent;
  }

  /** `parse_number` accepts nothing but numerals, of at most 63 bytes, with the value they denote. */
  lemma OnlyNumerals(s: string) returns (n: Numeral)
    requires Terminated(s) && ParseNumber(s).Success?
    ensures WellFormed(n) && |Spell(n)| <= 63 && s == Spell(n) + ParseNumber(s).rest
    ensures ParseNumber(s).value.Number? && Denotes(n, ParseNumber(s).value.num)
  {
    hide *;
    var text := NumberText(s, 63);
    var end := StringToDouble(text).end;
    n := NumeralOf(text);
    ParseNumberIs(s);
    ConvertsNumeral(text);
    Reads(n, text[end..]);
    Halves(text, end);
    Halves(s, end);
    assert s[..end] == text[..end];
  }

  lemma Halves(s: string, i: nat)
    requires i <= |s|
    ensures s[..i] + s[i..] == s
  {}

  /** A numeral in front, continued or not, leaves the scan with a digit. */
  lemma NumeralGivesDigits(n: Numeral, s: string)
    requires WellFormed(n) && Spell(n) <= s
    ensures StringToDouble(s).end > 0
  {
    var a := |SignText(n.sign)|;
    var rest := s[|Spell(n)|..];
    var all := n.whole + (PointText(n) + (ExponentText(n.exponent) + rest));
    assert s == Spell(n) + rest;
    Spelled(n, rest);
    assert all != "" && all[0] != '-' && all[0] != '+' by {
      if n.whole != "" { assert all[0] == n.whole[0]; } else { assert all[0] == '.'; }
    }
    FromStart(s);
    ReadsSign(n.sign, all, s, 0);
    FirstDigit(n, s, a, all, ExponentText(n.exponent) + rest);
  }

  lemma FirstDigit(n: Numeral, s: string, a: nat, all: string, rest: string)
    requires WellFormed(n) && all == n.whole + (PointText(n) + rest) && From(s, a, all) && SkipSign(s, 0) == a
    ensures StringToDouble(s).end > 0
  {
    assert forall i :: 0 <= i < |all| ==> all[i] == s[a + i];
    if n.whole != "" {
      assert all[0] == n.whole[0];
      assert DigitsEnd(s, a) > a;
    } else {
      assert all[0] == '.' && all[1] == n.fraction[0];
      assert DigitsEnd(s, a) == a && DigitsEnd(s, a + 1) > a + 1;
    }
    hide Accumulate, Pow10, AllDigits, From;
  }

  lemma NumeralSucceeds(n: Numeral, s: string)
    requires Terminated(s) && WellFormed(n) && |Spell(n)| <= 63 && Spell(n) <= s
    ensures ParseNumber(s).Success?
  {
    hide *;
    var rest := s[|Spell(n)|..];
    assert s == Spell(n) + rest;
    SpellsNumberChars(n);
    NumberTextSplits(Spell(n), rest, 63);
    NumeralGivesDigits(n, NumberText(s, 63));
    ParseNumberIs(s);
  }

  /** `parse_number` succeeds exactly when a numeral of at most 63 bytes is there. */
  lemma ParsesExactly(s: string)
    requires Terminated(s)
    ensures ParseNumber(s).Success? <==> exists n :: WellFormed(n) && |Spell(n)| <= 63 && Spell(n) <= s
  {
    hide *;
    if ParseNumber(s).Success? {
      var n := OnlyNumerals(s);
    } else {
      forall n | WellFormed(n) && |Spell(n)| <= 63 && Spell(n) <= s ensures false {
        NumeralSucceeds(n, s);
      }
    }
  }

  // ---- What number is printed ---------------------------------------------------------------

  /** A whole number is printed as its numeral without point and exponent, without a leading zero or a needless sign. */
  lemma PrintsCanonical(x: real) returns (n: Numeral)
    requires IsWhole(x)
    ensures WellFormed(n) && Spell(n) == Render.RenderNumber(x) && Denotes(n, x)
    ensures n.sign == (if x < 0.0 then Minus else Unsigned) && !n.point && n.exponent.None?
    ensures n.whole[0] == '0' ==> n.whole == "0"
  {
    var k := if x.Floor < 0 then -x.Floor else x.Floor;
    var digits := Decimal(k);
    DecimalReadsBack(k);
    n := Numeral(if x < 0.0 then Minus else Unsigned, digits, false, "", None);
    assert digits + "" == digits;
    assert Ten(0) == 1;
    if x < 0.0 {
      assert Spell(n) == "-" + digits;
    } else {
      assert Spell(n) == digits;
    }
  }
}

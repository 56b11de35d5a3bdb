/**
 The two structural comparisons: `cJSON_Compare` of the core library and `compare_json` of the
 utilities, which sorts both objects and then walks them in step.
 */
module Compare {
  import opened CString
  import opened Json
  import opened KeySort

  function Abs(x: real): real {
    if x < 0.0 then -x else x
  }

  const TWO_TO_52: real := 4503599627370496.0

  /** `compare_double`, in exact arithmetic: DBL_EPSILON is 2^-52. */
  predicate CompareDouble(a: real, b: real) {
    var larger := if Abs(a) > Abs(b) then Abs(a) else Abs(b);
    Abs(a - b) * TWO_TO_52 <= larger
  }

  /** `valueint`: the number truncated toward zero and saturated to a 32-bit int. */
  function ValueInt(num: real): int {
    if num >= 2147483647.0 then 2147483647
    else if num <= -2147483648.0 then -2147483648
    else if num < 0.0 then -(-num).Floor
    else num.Floor
  }

  /** `cJSON_Compare`. */
  predicate CompareValues(a: Value, b: Value, caseSensitive: bool)
    decreases Nesting(a) + Nesting(b)
  {
    if Kind(a) != Kind(b) || a.Invalid? then false
    else
      match a
      case Number(num) => CompareDouble(num, b.num)
      case String(text) => text == b.text
      case Array(items) =>
        |items| == |b.items| && forall i :: 0 <= i < |items| ==> CompareValues(items[i], b.items[i], caseSensitive)
      case Object(members) =>
        && (forall i :: 0 <= i < |members| ==> Matched(members[i], b, caseSensitive))
        && (forall j :: 0 <= j < |b.members| ==> Matched(b.members[j], a, caseSensitive))
      case _ => true
  }

  /** A member of one object is found in the other, and compares equal. */
  predicate Matched(e: Entry<Value>, other: Value, caseSensitive: bool)
    requires other.Object?
    decreases Nesting(e.item) + Nesting(other), 0
  {
    var j := IndexOf(other.members, e.key, caseSensitive);
    j < |other.members| && CompareValues(e.item, other.members[j].item, caseSensitive)
  }

  /** `compare_json`. */
  predicate CompareJson(a: Value, b: Value, caseSensitive: bool)
    decreases a, 1
  {
    if Kind(a) != Kind(b) then false
    else
      match a
      case Number(num) => ValueInt(num) == ValueInt(b.num) && CompareDouble(num, b.num)
      case String(text) => text == b.text
      case Array(items) =>
        |items| == |b.items| && forall i :: 0 <= i < |items| ==> CompareJson(items[i], b.items[i], caseSensitive)
      case Object(members) =>
        SortMembers(members, caseSensitive);
        CompareInStep(a, Sort(members, caseSensitive), Sort(b.members, caseSensitive), caseSensitive)
      case _ => true
  }

  /** The walk over two sorted member lists. */
  predicate CompareInStep(ghost whole: Value, a: Members, b: Members, caseSensitive: bool)
    requires whole.Object? && forall e :: e in a ==> e in whole.members
    decreases whole, 0, |a|
  {
    if a == [] || b == [] then a == [] && b == []
    else
      assert a[0] in whole.members;
      && CompareStrings(a[0].key, b[0].key, caseSensitive) == 0
      && CompareJson(a[0].item, b[0].item, caseSensitive)
      && CompareInStep(whole, a[1..], b[1..], caseSensitive)
  }

  lemma WholeGap(a: real, b: real)
    requires IsWhole(a) && IsWhole(b) && a != b
    ensures Abs(a - b) >= 1.0
  {
    var x, y := a.Floor, b.Floor;
    assert a - b == (x - y) as real && x != y;
  }

  lemma WholeSize(a: real)
    requires IsWhole(a)
    ensures Abs(a) < TWO_TO_52
  {
    assert TEN_TO_15 as real < TWO_TO_52;
  }

  /** Two different whole numbers of at most fifteen digits are never within the tolerance. */
  lemma CompareDoubleIsEquality(a: real, b: real)
    requires IsWhole(a) && IsWhole(b)
    ensures CompareDouble(a, b) <==> a == b
  {
    WholeSize(a);
    WholeSize(b);
    if a != b {
      WholeGap(a, b);
      hide IsWhole;
      assert Abs(a - b) * TWO_TO_52 >= TWO_TO_52;
    } else {
      assert a - b == 0.0;
    }
  }

  // ---- The tolerance ------------------------------------------------------------------------

  lemma Apart(m: nat, k: nat, unit: real)
    requires unit > 0.0
    ensures Abs(m as real * unit - (m + k) as real * unit) == k as real * unit
    ensures 0.0 <= m as real * unit <= (m + k) as real * unit
  {
    assert (m + k) as real * unit == m as real * unit + k as real * unit;
  }

  lemma SameUnit(x: int, y: int, unit: real)
    requires unit > 0.0
    ensures x as real * unit <= y as real * unit <==> x <= y
  {
    if x > y { assert (x - y) as real * unit > 0.0; }
  }

  /**
   Doubles of the same exponent, `m` and `m + k` times the unit of their last place: they compare equal
   exactly when they are the same or neighbours. The order of the two and a common sign make no difference.
   */
  lemma NeighboursEqual(m: nat, k: nat, unit: real)
    requires unit > 0.0 && 0x10_0000_0000_0000 <= m && m + k < 0x20_0000_0000_0000
    ensures var a, b := m as real * unit, (m + k) as real * unit;
            && (CompareDouble(a, b) <==> k <= 1) && (CompareDouble(b, a) <==> k <= 1)
            && (CompareDouble(-a, -b) <==> k <= 1) && (CompareDouble(-b, -a) <==> k <= 1)
  {
    var scaled := k * 0x10_0000_0000_0000;
    Apart(m, k, unit);
    SameUnit(scaled, m + k, unit);
    var a, b := m as real * unit, (m + k) as real * unit;
    Turned(a, b);
    WithinTolerance(a, b, k as real * unit);
    Regrouped(k, unit);
    hide CompareDouble;
  }

  lemma Regrouped(k: nat, unit: real)
    ensures k as real * unit * TWO_TO_52 == (k * 0x10_0000_0000_0000) as real * unit
  {
    assert k as real * unit * TWO_TO_52 == k as real * TWO_TO_52 * unit;
  }

  lemma WithinTolerance(a: real, b: real, gap: real)
    requires 0.0 <= a <= b && b - a == gap
    ensures CompareDouble(a, b) <==> gap * TWO_TO_52 <= b
  {
    assert Abs(a - b) == gap;
  }

  lemma Turned(a: real, b: real)
    ensures CompareDouble(b, a) == CompareDouble(a, b) && CompareDouble(-a, -b) == CompareDouble(a, b)
    ensures CompareDouble(-b, -a) == CompareDouble(a, b)
  {
    assert Abs(-a) == Abs(a) && Abs(-b) == Abs(b) && Abs(-a - -b) == Abs(a - b) && Abs(b - a) == Abs(a - b);
    assert Abs(-b - -a) == Abs(a - b);
  }

  /** A number equals none of the other sign. */
  lemma SignsDiffer(a: real, b: real)
    requires a < 0.0 <= b
    ensures !CompareDouble(a, b) && !CompareDouble(b, a)
  {}

  // ---- cJSON_Compare decides equality of denotations ----------------------------------------

  lemma {:induction false} CompareValuesDecides(a: Value, b: Value, keys: iset<string>, caseSensitive: bool)
    requires Tame(a, keys) && Tame(b, keys) && ToldApart(keys, caseSensitive)
    ensures CompareValues(a, b, caseSensitive) <==> Denote(a) == Denote(b)
    decreases Nesting(a) + Nesting(b), 3
  {
    if Kind(a) == Kind(b) {
      match a
      case Number(num) => CompareDoubleIsEquality(num, b.num);
      case Array(items) => CompareArraysDecides(a, b, keys, caseSensitive);
      case Object(_) => CompareObjectsDecides(a, b, keys, caseSensitive);
      case _ =>
    }
  }

  lemma {:induction false} CompareObjectsDecides(a: Value, b: Value, keys: iset<string>, caseSensitive: bool)
    requires a.Object? && b.Object?
    requires Tame(a, keys) && Tame(b, keys) && ToldApart(keys, caseSensitive)
    ensures CompareValues(a, b, caseSensitive) <==> Denote(a) == Denote(b)
    decreases Nesting(a) + Nesting(b), 2
  {
    hide PartOf, Matched, Tame, ToldApart, DenoteMembers, Nesting;
    IncludedDecides(a, b, keys, caseSensitive);
    IncludedDecides(b, a, keys, caseSensitive);
    PartOfBothWays(DenoteMembers(a.members), DenoteMembers(b.members));
  }

  lemma {:induction false} CompareArraysDecides(a: Value, b: Value, keys: iset<string>, caseSensitive: bool)
    requires a.Array? && b.Array?
    requires Tame(a, keys) && Tame(b, keys) && ToldApart(keys, caseSensitive)
    ensures CompareValues(a, b, caseSensitive) <==> Denote(a) == Denote(b)
    decreases Nesting(a) + Nesting(b), 1
  {
    if |a.items| == |b.items| {
      forall i | 0 <= i < |a.items|
        ensures CompareValues(a.items[i], b.items[i], caseSensitive) <==> Denote(a.items[i]) == Denote(b.items[i])
      {
        CompareValuesDecides(a.items[i], b.items[i], keys, caseSensitive);
      }
    }
    assert Denote(a) == Denote(b) <==> DenoteItems(a.items) == DenoteItems(b.items);
  }

  ghost predicate PartOf<K, V>(m: map<K, V>, n: map<K, V>) {
    forall k <- m.Keys :: k in n && m[k] == n[k]
  }

  lemma PartOfBothWays<K, V>(m: map<K, V>, n: map<K, V>)
    ensures m == n <==> PartOf(m, n) && PartOf(n, m)
  {
    if PartOf(m, n) && PartOf(n, m) {
      assert m.Keys == n.Keys;
    }
  }

  lemma {:induction false} MatchedDecides(e: Entry<Value>, b: Value, keys: iset<string>, caseSensitive: bool)
    requires b.Object? && Tame(b, keys) && Tame(e.item, keys) && e.key in keys && ToldApart(keys, caseSensitive)
    ensures var n := DenoteMembers(b.members);
            Matched(e, b, caseSensitive) <==> e.key in n && n[e.key] == Denote(e.item)
    decreases Nesting(e.item) + Nesting(b), 4
  {
    var j := IndexOf(b.members, e.key, caseSensitive);
    LookupIsMapAmong(b.members, e.key, caseSensitive, keys);
    if j < |b.members| {
      CompareValuesDecides(e.item, b.members[j].item, keys, caseSensitive);
    }
  }

  /** One of the two loops over an object succeeds exactly when the map of `a` is part of the map of `b`. */
  lemma {:induction false} IncludedDecides(a: Value, b: Value, keys: iset<string>, caseSensitive: bool)
    requires a.Object? && b.Object?
    requires Tame(a, keys) && Tame(b, keys) && ToldApart(keys, caseSensitive)
    ensures (forall i :: 0 <= i < |a.members| ==> Matched(a.members[i], b, caseSensitive))
       <==> PartOf(DenoteMembers(a.members), DenoteMembers(b.members))
    decreases Nesting(a) + Nesting(b), 1
  {
    var m, n := DenoteMembers(a.members), DenoteMembers(b.members);
    DenoteMembersAll(a.members);
    forall i | 0 <= i < |a.members|
      ensures Matched(a.members[i], b, caseSensitive) <==>
              a.members[i].key in n && n[a.members[i].key] == m[a.members[i].key]
    {
      MatchedDecides(a.members[i], b, keys, caseSensitive);
    }
    if forall i :: 0 <= i < |a.members| ==> Matched(a.members[i], b, caseSensitive) {
      forall k | k in m.Keys ensures k in n && m[k] == n[k] {
        DenoteMembersKeys(a.members, k);
        var i :| 0 <= i < |a.members| && a.members[i].key == k;
      }
    } else {
      var i :| 0 <= i < |a.members| && !Matched(a.members[i], b, caseSensitive);
      assert a.members[i].key in m.Keys;
    }
  }

  /** Case-sensitive comparison, on every tree of the domain. */
  lemma CompareIsEquality(a: Value, b: Value)
    requires Tame(a, ANY_KEY) && Tame(b, ANY_KEY)
    ensures CompareValues(a, b, true) <==> Denote(a) == Denote(b)
  {
    AnyKeyToldApart();
    CompareValuesDecides(a, b, ANY_KEY, true);
  }

  /** Hence an equivalence, blind to the order of members. */
  lemma CompareIsEquivalence(a: Value, b: Value, c: Value)
    requires Tame(a, ANY_KEY) && Tame(b, ANY_KEY) && Tame(c, ANY_KEY)
    ensures CompareValues(a, a, true)
    ensures CompareValues(a, b, true) <==> CompareValues(b, a, true)
    ensures CompareValues(a, b, true) && CompareValues(b, c, true) ==> CompareValues(a, c, true)
  {
    CompareIsEquality(a, a);
    CompareIsEquality(a, b);
    CompareIsEquality(b, a);
    CompareIsEquality(b, c);
    CompareIsEquality(a, c);
  }

  lemma CompareIgnoresOrder(members: Members, permuted: Members)
    requires Tame(Object(members), ANY_KEY) && multiset(members) == multiset(permuted)
    ensures CompareValues(Object(members), Object(permuted), true)
  {
    PermutationKeepsDistinct(members, permuted);
    SameElements(members, permuted);
    DenoteMembersAll(members);
    forall i | 0 <= i < |permuted|
      ensures exists j :: 0 <= j < |members| && members[j] == permuted[i]
    {
      assert permuted[i] in permuted;
    }
    forall k | k in DenoteMembers(members).Keys ensures HasKey(permuted, k) {
      DenoteMembersKeys(members, k);
      var i :| 0 <= i < |members| && members[i].key == k;
      assert members[i] in members;
    }
    DenoteMembersIs(permuted, DenoteMembers(members));
    CompareIsEquality(Object(members), Object(permuted));
  }

  // ---- compare_json decides it too ----------------------------------------------------------

  lemma {:induction false} CompareJsonDecides(a: Value, b: Value, keys: iset<string>, caseSensitive: bool)
    requires Tame(a, keys) && Tame(b, keys) && ToldApart(keys, caseSensitive)
    ensures CompareJson(a, b, caseSensitive) <==> Denote(a) == Denote(b)
    decreases a, 1
  {
    if Kind(a) == Kind(b) {
      match a
      case Number(num) => CompareDoubleIsEquality(num, b.num);
      case Array(items) =>
        if |items| == |b.items| {
          forall i | 0 <= i < |items|
            ensures CompareJson(items[i], b.items[i], caseSensitive) <==> Denote(items[i]) == Denote(b.items[i])
          {
            CompareJsonDecides(items[i], b.items[i], keys, caseSensitive);
          }
          assert Denote(a) == Denote(b) <==> DenoteItems(items) == DenoteItems(b.items);
        }
      case Object(members) =>
        var sa, sb := Sort(members, caseSensitive), Sort(b.members, caseSensitive);
        SortedIsOrdered(members, keys, caseSensitive);
        SortedIsOrdered(b.members, keys, caseSensitive);
        SortMembers(members, caseSensitive);
        InStepDecides(a, sa, sb, keys, caseSensitive);
      case _ =>
    }
  }

  /** Members in strictly increasing order of a comparison that tells their keys apart. */
  ghost predicate Ordered(s: Members, keys: iset<string>, caseSensitive: bool) {
    && TameMembers(s, keys)
    && forall i, j :: 0 <= i < j < |s| ==> CompareKeys(s[i], s[j], caseSensitive) < 0
  }

  lemma SortedIsOrdered(members: Members, keys: iset<string>, caseSensitive: bool)
    requires TameMembers(members, keys) && ToldApart(keys, caseSensitive)
    ensures Ordered(Sort(members, caseSensitive), keys, caseSensitive)
    ensures DenoteMembers(Sort(members, caseSensitive)) == DenoteMembers(members)
  {
    var s := Sort(members, caseSensitive);
    SortKeepsMeaning(members, caseSensitive);
    SortMembers(members, caseSensitive);
    forall i | 0 <= i < |s| ensures s[i].key in keys && Tame(s[i].item, keys) {
      assert s[i] in s;
    }
    SortSorts(members, caseSensitive);
    StrictWhenDistinct(s, caseSensitive);
  }

  /** The map of a list splits into its first member and the rest. */
  lemma {:induction false} DenoteSplitsHead(s: Members, keys: iset<string>, caseSensitive: bool)
    requires s != [] && Ordered(s, keys, caseSensitive)
    ensures Ordered(s[1..], keys, caseSensitive)
    ensures s[0].key !in DenoteMembers(s[1..])
    ensures forall k <- DenoteMembers(s[1..]).Keys :: CompareStrings(s[0].key, k, caseSensitive) < 0
  {
    forall k | k in DenoteMembers(s[1..]).Keys
      ensures CompareStrings(s[0].key, k, caseSensitive) < 0 && k != s[0].key
    {
      DenoteMembersKeys(s[1..], k);
      var i :| 0 <= i < |s[1..]| && s[1..][i].key == k;
      assert s[i + 1] == s[1..][i];
    }
  }

  lemma {:induction false} InStepDecides(whole: Value, a: Members, b: Members, keys: iset<string>, caseSensitive: bool)
    requires whole.Object? && forall e :: e in a ==> e in whole.members
    requires Ordered(a, keys, caseSensitive) && Ordered(b, keys, caseSensitive) && ToldApart(keys, caseSensitive)
    ensures CompareInStep(whole, a, b, caseSensitive) <==> DenoteMembers(a) == DenoteMembers(b)
    decreases whole, 0, |a|
  {
    if a == [] || b == [] {
      if a != [] { assert a[0].key in DenoteMembers(a); }
      if b != [] { assert b[0].key in DenoteMembers(b); }
    } else {
      assert a[0] in whole.members;
      CompareZero(a[0].key, b[0].key, caseSensitive);
      if a[0].key == b[0].key {
        DenoteSplitsHead(a, keys, caseSensitive);
        DenoteSplitsHead(b, keys, caseSensitive);
        CompareJsonDecides(a[0].item, b[0].item, keys, caseSensitive);
        InStepDecides(whole, a[1..], b[1..], keys, caseSensitive);
        SameHead(DenoteMembers(a[1..]), DenoteMembers(b[1..]), a[0].key, Denote(a[0].item), Denote(b[0].item));
      } else {
        HeadsDiffer(a, b, keys, caseSensitive);
      }
    }
  }

  lemma SameHead<K, V>(m: map<K, V>, n: map<K, V>, k: K, x: V, y: V)
    requires k !in m && k !in n
    ensures m[k := x] == n[k := y] <==> x == y && m == n
  {
    assert m == m[k := x] - {k};
    assert n == n[k := y] - {k};
    assert m[k := x][k] == x && n[k := y][k] == y;
  }

  /** When the first keys differ, the smaller one is missing from the other side. */
  lemma {:induction false} HeadsDiffer(a: Members, b: Members, keys: iset<string>, caseSensitive: bool)
    requires a != [] && b != [] && a[0].key != b[0].key
    requires Ordered(a, keys, caseSensitive) && Ordered(b, keys, caseSensitive) && ToldApart(keys, caseSensitive)
    ensures DenoteMembers(a) != DenoteMembers(b)
  {
    CompareZero(a[0].key, b[0].key, caseSensitive);
    CompareFlips(a[0].key, b[0].key, caseSensitive);
    var s, t := if CompareKeys(a[0], b[0], caseSensitive) < 0 then a else b,
                if CompareKeys(a[0], b[0], caseSensitive) < 0 then b else a;
    SmallerHeadMissing(s, t, keys, caseSensitive);
    assert s[0].key in DenoteMembers(s);
  }

  lemma {:induction false} SmallerHeadMissing(s: Members, t: Members, keys: iset<string>, caseSensitive: bool)
    requires s != [] && Ordered(t, keys, caseSensitive)
    requires t != [] ==> CompareKeys(s[0], t[0], caseSensitive) < 0
    ensures s[0].key !in DenoteMembers(t)
  {
    DenoteMembersKeys(t, s[0].key);
    forall i | 0 <= i < |t| ensures t[i].key != s[0].key {
      if i > 0 { CompareTransitive(s[0].key, t[0].key, t[i].key, caseSensitive); }
      CompareZero(s[0].key, s[0].key, caseSensitive);
    }
  }
}

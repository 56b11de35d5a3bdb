/**
 JSON Pointer (RFC 6901) as cJSON_Utils.c implements it: escaping, matching a path token against a
 key, array indices, resolving a pointer and finding the pointer of a node.

 A node is identified by its address, the child positions on the way down from the root; this plays
 the part of the node's pointer in the C code.
 */
module Pointer {
  import opened CString
  import opened Digits
  import opened Json

  // ---- Addresses ----------------------------------------------------------------------------

  type Address = seq<nat>

  function ChildCount(v: Value): nat {
    match v
    case Array(items) => |items|
    case Object(members) => |members|
    case _ => 0
  }

  function Child(v: Value, i: nat): (c: Value)
    requires i < ChildCount(v)
    ensures c < v
  {
    match v
    case Array(items) => items[i]
    case Object(members) => members[i].item
  }

  predicate IsNode(v: Value, a: Address) {
    a == [] || (a[0] < ChildCount(v) && IsNode(Child(v, a[0]), a[1..]))
  }

  function At(v: Value, a: Address): Value
    requires IsNode(v, a)
  {
    if a == [] then v else At(Child(v, a[0]), a[1..])
  }

  function PutChild(v: Value, i: nat, w: Value): Value
    requires i < ChildCount(v)
  {
    match v
    case Array(items) => Array(items[i := w])
    case Object(members) => Object(members[i := Entry(members[i].key, w)])
  }

  /** The tree with the node at `a` overwritten by `w`. */
  function Put(v: Value, a: Address, w: Value): Value
    requires IsNode(v, a)
  {
    if a == [] then w else PutChild(v, a[0], Put(Child(v, a[0]), a[1..], w))
  }

  // ---- Tokens -------------------------------------------------------------------------------

  /** `encode_string_as_pointer`: `~` becomes `~0` and `/` becomes `~1`. */
  function Encode(s: string): (r: string)
    ensures forall i :: 0 <= i < |r| ==> r[i] != '/'
  {
    if s == [] then []
    else if s[0] == '/' then "~1" + Encode(s[1..])
    else if s[0] == '~' then "~0" + Encode(s[1..])
    else [s[0]] + Encode(s[1..])
  }

  /** Here a path token ends. */
  predicate TokenEnds(pointer: string) {
    pointer == [] || pointer[0] == '/'
  }

  /** `compare_pointers`: does the token at the front of `pointer` name the key `name`? */
  predicate ComparePointers(name: string, pointer: string, caseSensitive: bool)
    decreases |pointer|
  {
    if name == [] || TokenEnds(pointer) then
      name == [] && TokenEnds(pointer)
    else if pointer[0] == '~' then
      && |pointer| > 1
      && ((pointer[1] == '0' && name[0] == '~') || (pointer[1] == '1' && name[0] == '/'))
      && ComparePointers(name[1..], pointer[2..], caseSensitive)
    else
      Norm(name[0], caseSensitive) == Norm(pointer[0], caseSensitive)
      && ComparePointers(name[1..], pointer[1..], caseSensitive)
  }

  /** Moves to the next `/` or to the end. */
  function SkipToken(pointer: string): (r: string)
    ensures TokenEnds(r) && |r| <= |pointer|
  {
    if TokenEnds(pointer) then pointer else SkipToken(pointer[1..])
  }

  /**
   The digit loop of `decode_array_index_from_pointer`. It tests the first character of the token
   against '9', not the current one, and the index wraps like a `size_t`.
   */
  function DecodeDigits(pointer: string, first: char, index: nat): Option<nat> {
    if pointer != [] && pointer[0] >= '0' && first <= '9' then
      DecodeDigits(pointer[1..], first, (10 * index + DigitValue(pointer[0])) % SIZE_LIMIT)
    else if TokenEnds(pointer) then Some(index)
    else None
  }

  function DecodeIndex(pointer: string): Option<nat> {
    if |pointer| > 1 && pointer[0] == '0' && pointer[1] != '/' then None
    else DecodeDigits(pointer, if pointer == [] then '\0' else pointer[0], 0)
  }

  /** The object step of a lookup: the first member whose key matches the token. */
  function FindByToken(members: Members, pointer: string, caseSensitive: bool): (i: nat)
    ensures i <= |members|
    ensures i < |members| ==> ComparePointers(members[i].key, pointer, caseSensitive)
    ensures forall j :: 0 <= j < i ==> !ComparePointers(members[j].key, pointer, caseSensitive)
  {
    if members == [] || ComparePointers(members[0].key, pointer, caseSensitive) then 0
    else 1 + FindByToken(members[1..], pointer, caseSensitive)
  }

  /** One step of `get_item_from_pointer`: the child the token at the front of `token` selects. */
  function Select(v: Value, token: string, caseSensitive: bool): (r: Option<nat>)
    ensures r.Some? ==> r.value < ChildCount(v)
  {
    match v
    case Array(items) =>
      (match DecodeIndex(token)
       case Some(i) => if i < |items| then Some(i) else None
       case None => None)
    case Object(members) =>
      var i := FindByToken(members, token, caseSensitive);
      if i < |members| then Some(i) else None
    case _ => None
  }

  /** `get_item_from_pointer`. */
  function GetItem(v: Value, pointer: string, caseSensitive: bool): (r: Option<Address>)
    ensures r.Some? ==> IsNode(v, r.value)
    decreases |pointer|
  {
    if pointer == [] || pointer[0] != '/' then Some([])
    else
      var token := pointer[1..];
      match Select(v, token, caseSensitive)
      case None => None
      case Some(i) =>
        match GetItem(Child(v, i), SkipToken(token), caseSensitive)
        case None => None
        case Some(a) => Some([i] + a)
  }

  /** `cJSONUtils_FindPointerFromObjectTo`, searching below the node at `here`. */
  function FindPointer(v: Value, here: Address, target: Address): Option<string>
    decreases v, 1, 0
  {
    if here == target then Some("") else FindAmongChildren(v, 0, here, target)
  }

  function FindAmongChildren(v: Value, i: nat, here: Address, target: Address): Option<string>
    requires i <= ChildCount(v)
    decreases v, 0, ChildCount(v) - i
  {
    if i == ChildCount(v) then None
    else
      match FindPointer(Child(v, i), here + [i], target)
      case Some(below) =>
        Some("/" + (if v.Array? then Decimal(i) else Encode(v.members[i].key)) + below)
      case None => FindAmongChildren(v, i + 1, here, target)
  }

  // ---- Tokens are matched exactly -----------------------------------------------------------

  /** The escaped form of one byte. */
  function EncodeByte(c: char): string {
    if c == '/' then "~1" else if c == '~' then "~0" else [c]
  }

  lemma EncodeFront(key: string, rest: string)
    requires key != []
    ensures Encode(key) + rest == EncodeByte(key[0]) + (Encode(key[1..]) + rest)
  {}

  /** The matcher on one escaped byte. */
  lemma MatchesByte(name: string, c: char, more: string, caseSensitive: bool)
    requires name != []
    ensures ComparePointers(name, EncodeByte(c) + more, caseSensitive) <==>
              Norm(name[0], caseSensitive) == Norm(c, caseSensitive) && ComparePointers(name[1..], more, caseSensitive)
  {
    var p := EncodeByte(c) + more;
    if c == '/' || c == '~' {
      assert p[0] == '~' && p[1] == (if c == '/' then '1' else '0') && p[2..] == more;
    } else {
      assert p[0] == c && p[1..] == more;
    }
  }

  /**
   An escaped key followed by a token end matches just the keys equal to it: escaping loses nothing
   against the matcher.
   */
  lemma {:induction false} EncodedKeyMatches(name: string, key: string, rest: string, caseSensitive: bool)
    requires TokenEnds(rest)
    ensures ComparePointers(name, Encode(key) + rest, caseSensitive) <==> CompareStrings(name, key, caseSensitive) == 0
    decreases |key|
  {
    if key == [] {
      assert Encode(key) + rest == rest;
    } else if name == [] {
      var p := Encode(key) + rest;
      assert p != [] && p[0] == Encode(key)[0] && p[0] != '/';
    } else {
      hide Encode, EncodeByte, ComparePointers;
      EncodedKeyMatches(name[1..], key[1..], rest, caseSensitive);
      EncodeFront(key, rest);
      MatchesByte(name, key[0], Encode(key[1..]) + rest, caseSensitive);
    }
  }

  lemma {:induction false} SkipsToken(token: string, rest: string)
    requires TokenEnds(rest) && forall i :: 0 <= i < |token| ==> token[i] != '/'
    ensures SkipToken(token + rest) == rest
  {
    if token == [] {
      assert token + rest == rest;
    } else {
      assert (token + rest)[1..] == token[1..] + rest;
      SkipsToken(token[1..], rest);
    }
  }

  /** Digits have no escapes. */
  lemma {:induction false} EncodePlain(s: string)
    requires forall i :: 0 <= i < |s| ==> s[i] != '~' && s[i] != '/'
    ensures Encode(s) == s
  {
    if s != [] { EncodePlain(s[1..]); }
  }

  lemma FitsUnwrapped(n: nat)
    requires n < SIZE_LIMIT
    ensures n % SIZE_LIMIT == n
  {}

  lemma {:induction false} DecodesDigits(digits: string, rest: string, first: char, index: nat)
    requires AllDigits(digits) && TokenEnds(rest) && IsDigit(first)
    requires Accumulate(digits, index) < SIZE_LIMIT
    ensures DecodeDigits(digits + rest, first, index) == Some(Accumulate(digits, index))
  {
    if digits == [] {
      assert digits + rest == rest;
    } else {
      assert (digits + rest)[1..] == digits[1..] + rest;
      var next := 10 * index + DigitValue(digits[0]);
      assert next <= Accumulate(digits[1..], next);
      FitsUnwrapped(next);
      DecodesDigits(digits[1..], rest, first, next);
    }
  }

  /** A printed index is read back, up to the width of `size_t`. */
  lemma IndexReadsBack(i: nat, rest: string)
    requires i < SIZE_LIMIT && TokenEnds(rest)
    ensures DecodeIndex(Decimal(i) + rest) == Some(i)
  {
    DecimalReadsBack(i);
    DecodesDigits(Decimal(i), rest, Decimal(i)[0], 0);
  }

  // ---- The pointer of a node ----------------------------------------------------------------

  /** The pointer text of the node at `a`. */
  function PointerTo(v: Value, a: Address): (r: string)
    requires IsNode(v, a)
    ensures TokenEnds(r)
  {
    if a == [] then ""
    else "/" + (if v.Array? then Decimal(a[0]) else Encode(v.members[a[0]].key)) + PointerTo(Child(v, a[0]), a[1..])
  }

  /** The search returns the text of the one place where the target is, and nothing if it is elsewhere. */
  lemma {:induction false} FindPointerFinds(v: Value, here: Address, target: Address)
    ensures FindPointer(v, here, target) ==
              if here <= target && IsNode(v, target[|here|..]) then Some(PointerTo(v, target[|here|..])) else None
    decreases v, 1, 0
  {
    if here == target {
      assert target[|here|..] == [];
    } else {
      FindAmongChildrenFinds(v, 0, here, target);
    }
  }

  lemma {:induction false} FindAmongChildrenFinds(v: Value, i: nat, here: Address, target: Address)
    requires i <= ChildCount(v) && here != target
    ensures FindAmongChildren(v, i, here, target) ==
              if here <= target && IsNode(v, target[|here|..]) && target[|here|] >= i
              then Some(PointerTo(v, target[|here|..])) else None
    decreases v, 0, ChildCount(v) - i
  {
    if i < ChildCount(v) {
      FindPointerFinds(Child(v, i), here + [i], target);
      FindAmongChildrenFinds(v, i + 1, here, target);
      if here <= target && |here| < |target| {
        assert here + [i] <= target <==> target[|here|] == i;
        assert target[|here|..][1..] == target[|here + [i]|..];
        assert target[|here|..][0] == target[|here|];
      }
    }
  }

  /** On the way to `a`, no object holds an earlier member under the same key. */
  predicate FirstOfItsName(v: Value, a: Address, caseSensitive: bool)
    requires IsNode(v, a)
  {
    a == [] || (
      && (v.Object? ==> forall j :: 0 <= j < a[0] ==>
            CompareStrings(v.members[j].key, v.members[a[0]].key, caseSensitive) != 0)
      && FirstOfItsName(Child(v, a[0]), a[1..], caseSensitive))
  }

  predicate Indexable(a: Address) {
    forall i :: 0 <= i < |a| ==> a[i] < SIZE_LIMIT
  }

  /** The address below child `i`, seen from above. */
  function Under(i: nat, below: Option<Address>): Option<Address> {
    if below.Some? then Some([i] + below.value) else None
  }

  lemma UnderIs(i: nat, below: Option<Address>, a: Address)
    requires a != []
    ensures Under(i, below) == Some(a) <==> i == a[0] && below == Some(a[1..])
  {
    assert a == [a[0]] + a[1..];
    if below.Some? { assert ([i] + below.value)[1..] == below.value; }
  }

  /** Resolving one token. */
  lemma GetItemStep(v: Value, token: string, below: string, caseSensitive: bool)
    requires TokenEnds(below) && forall i :: 0 <= i < |token| ==> token[i] != '/'
    ensures var s := Select(v, token + below, caseSensitive);
            GetItem(v, "/" + token + below, caseSensitive)
            == if s.Some? then Under(s.value, GetItem(Child(v, s.value), below, caseSensitive)) else None
  {
    var text := "/" + token + below;
    assert text[1..] == token + below;
    SkipsToken(token, below);
    hide Select, SkipToken;
  }

  /**
   Resolving the pointer of a node leads back to that node, exactly when no earlier member of the
   same name stands in the way. Keys may hold any bytes, `~` and `/` included.
   */
  lemma {:induction false} PointerRoundTrip(v: Value, a: Address, caseSensitive: bool)
    requires IsNode(v, a) && Indexable(a)
    ensures FindPointer(v, [], a) == Some(PointerTo(v, a))
    ensures GetItem(v, PointerTo(v, a), caseSensitive) == Some(a) <==> FirstOfItsName(v, a, caseSensitive)
    decreases |a|
  {
    FindPointerFinds(v, [], a);
    assert a[0..] == a;
    if a != [] {
      ResolvesLevel(v, a, caseSensitive);
      PointerRoundTrip(Child(v, a[0]), a[1..], caseSensitive);
      hide GetItem, FindPointer, CompareStrings;
    }
  }

  /** The round trip on one level, given what happens below. */
  lemma ResolvesLevel(v: Value, a: Address, caseSensitive: bool)
    requires IsNode(v, a) && a != [] && a[0] < SIZE_LIMIT
    ensures GetItem(v, PointerTo(v, a), caseSensitive) == Some(a) <==>
              && (v.Object? ==> forall j :: 0 <= j < a[0] ==>
                    CompareStrings(v.members[j].key, v.members[a[0]].key, caseSensitive) != 0)
              && GetItem(Child(v, a[0]), PointerTo(Child(v, a[0]), a[1..]), caseSensitive) == Some(a[1..])
  {
    var below := PointerTo(Child(v, a[0]), a[1..]);
    var token := if v.Array? then Decimal(a[0]) else Encode(v.members[a[0]].key);
    assert PointerTo(v, a) == "/" + token + below;
    GetItemStep(v, token, below, caseSensitive);
    if v.Array? {
      IndexReadsBack(a[0], below);
    } else {
      SelectsFirst(v.members, a[0], below, caseSensitive);
    }
    var s := Select(v, token + below, caseSensitive);
    hide GetItem, CompareStrings, PointerTo;
    if s.Some? { UnderIs(s.value, GetItem(Child(v, s.value), below, caseSensitive), a); }
  }

  /** The escaped key of member `i` selects the first member of that name. */
  lemma SelectsFirst(members: Members, i: nat, rest: string, caseSensitive: bool)
    requires i < |members| && TokenEnds(rest)
    ensures var token := Encode(members[i].key) + rest;
            var s := FindByToken(members, token, caseSensitive);
            && s <= i
            && (s == i <==> forall j :: 0 <= j < i ==>
                  CompareStrings(members[j].key, members[i].key, caseSensitive) != 0)
  {
    var token := Encode(members[i].key) + rest;
    forall j | 0 <= j < |members|
      ensures ComparePointers(members[j].key, token, caseSensitive)
         <==> CompareStrings(members[j].key, members[i].key, caseSensitive) == 0
    {
      EncodedKeyMatches(members[j].key, members[i].key, rest, caseSensitive);
    }
    CompareZero(members[i].key, members[i].key, caseSensitive);
  }

  /** In a tree without repeated keys every node is found again. */
  lemma {:induction false} DistinctIsFirst(v: Value, a: Address)
    requires IsNode(v, a) && Distinct(v)
    ensures FirstOfItsName(v, a, true)
    decreases |a|
  {
    if a != [] {
      DistinctIsFirst(Child(v, a[0]), a[1..]);
      if v.Object? {
        forall j | 0 <= j < a[0] ensures CompareStrings(v.members[j].key, v.members[a[0]].key, true) != 0 {
          CompareZero(v.members[j].key, v.members[a[0]].key, true);
          FoldIsIdentity(v.members[j].key);
          FoldIsIdentity(v.members[a[0]].key);
        }
      }
    }
  }

  lemma EveryNodeIsFound(v: Value, a: Address)
    requires Distinct(v) && IsNode(v, a) && Indexable(a)
    ensures var p := FindPointer(v, [], a);
            p.Some? && GetItem(v, p.value, true) == Some(a)
  {
    DistinctIsFirst(v, a);
    PointerRoundTrip(v, a, true);
  }
}

/**
 The pointer routines of cJSON_Utils.c as they run, byte by byte along NUL-terminated strings. Each
 is shown to compute the function of the same name in `Pointer`, `Patch` or `CString`, and never to
 look behind a terminator.
 */
module PointerLoops {
  import opened CString
  import opened Digits
  import opened Json
  import opened Minify
  import opened Patch
  import opened Pointer
  import opened Render

  /** The byte of a C string at a position up to its terminator. */
  function Byte(s: string, i: nat): char
    requires i <= |s|
  {
    if i < |s| then s[i] else NUL
  }

  /** `compare_strings`; `strcmp` is taken as given. */
  method CompareStringsInStep(a: string, b: string, caseSensitive: bool) returns (r: int)
    requires IsCString(a) && IsCString(b)
    ensures r < 0 <==> CompareStrings(a, b, caseSensitive) < 0
    ensures r > 0 <==> CompareStrings(a, b, caseSensitive) > 0
  {
    if caseSensitive { return CompareStrings(a, b, true); }
    var i := 0;
    assert a[0..] == a && b[0..] == b;
    while Lower(Byte(a, i)) == Lower(Byte(b, i))
      invariant i <= |a| && i <= |b|
      invariant CompareStrings(a[i..], b[i..], false) == CompareStrings(a, b, false)
      decreases |a| - i
    {
      if Byte(a, i) == NUL { return 0; }
      assert a[i..][1..] == a[i + 1..] && b[i..][1..] == b[i + 1..];
      i := i + 1;
    }
    r := Lower(Byte(a, i)) as int - Lower(Byte(b, i)) as int;
  }

  /** `compare_pointers`. */
  method ComparePointersInStep(name: string, pointer: string, caseSensitive: bool) returns (same: bool)
    requires IsCString(name) && IsCString(pointer)
    ensures same == ComparePointers(name, pointer, caseSensitive)
  {
    var n, p := 0, 0;
    assert name[0..] == name && pointer[0..] == pointer;
    while Byte(name, n) != NUL && Byte(pointer, p) != NUL && Byte(pointer, p) != '/'
      invariant n <= |name| && p <= |pointer|
      invariant ComparePointers(name[n..], pointer[p..], caseSensitive) == ComparePointers(name, pointer, caseSensitive)
      decreases |name| - n
    {
      ghost var s, t := name[n..], pointer[p..];
      assert s[1..] == name[n + 1..] && t[1..] == pointer[p + 1..];
      assert |t| > 1 ==> t[1] == pointer[p + 1] && t[2..] == pointer[p + 2..];
      if Byte(pointer, p) == '~' {
        if (Byte(pointer, p + 1) != '0' || Byte(name, n) != '~')
           && (Byte(pointer, p + 1) != '1' || Byte(name, n) != '/')
        {
          return false;
        } else {
          p := p + 1;
        }
      } else if (!caseSensitive && Lower(Byte(name, n)) != Lower(Byte(pointer, p)))
             || (caseSensitive && Byte(name, n) != Byte(pointer, p))
      {
        return false;
      }
      n, p := n + 1, p + 1;
    }
    if (Byte(pointer, p) != NUL && Byte(pointer, p) != '/') != (Byte(name, n) != NUL) { return false; }
    return true;
  }

  /** `pointer_encoded_length`. */
  method EncodedLength(s: string) returns (length: nat)
    requires IsCString(s)
    ensures length == |Encode(s)|
  {
    length := 0;
    var i := 0;
    assert s[0..] == s;
    while Byte(s, i) != NUL
      invariant i <= |s| && length + |Encode(s[i..])| == |Encode(s)|
      decreases |s| - i
    {
      assert s[i..][1..] == s[i + 1..];
      if Byte(s, i) == '~' || Byte(s, i) == '/' {
        length := length + 1;
      }
      i, length := i + 1, length + 1;
    }
  }

  /** The escaped form of the byte at `i`, between what is done and what is left. */
  lemma EncodeStep(source: string, i: nat, all: string, d: nat)
    requires i < |source| && d <= |all| && all[d..] == Encode(source[i..])
    ensures var e := EncodeByte(source[i]);
            && d + |e| <= |all| && all[d + |e|..] == Encode(source[i + 1..])
            && forall k :: 0 <= k < |e| ==> all[d + k] == e[k]
  {
    var rest, e := source[i..], EncodeByte(source[i]);
    assert rest[1..] == source[i + 1..];
    var tail := all[d..];
    assert tail == e + Encode(source[i + 1..]) by {
      EncodeFront(rest, []);
      assert tail + [] == tail && Encode(rest[1..]) + [] == Encode(rest[1..]);
    }
    hide Encode, EncodeByte;
    assert tail[|e|..] == all[d + |e|..];
    assert forall k :: 0 <= k < |e| ==> tail[k] == all[d + k];
  }

  /** `all` has been written from `start` up to `d`, and nothing outside its place has changed. */
  ghost predicate Written(now: seq<char>, before: seq<char>, start: nat, d: nat, all: string) {
    && |now| == |before| && start <= d <= start + |all| < |now|
    && (forall k {:trigger now[k]} :: start <= k < d ==> now[k] == all[k - start])
    && (forall k {:trigger now[k]} :: 0 <= k < start || start + |all| < k < |now| ==> now[k] == before[k])
  }

  /** One round of the encoding loop. */
  method EncodeRound(destination: array<char>, at: nat, source: string, i: nat, ghost start: nat, ghost all: string,
                     ghost before: seq<char>)
    returns (d: nat)
    requires i < |source| && Written(destination[..], before, start, at, all)
    requires all[at - start..] == Encode(source[i..])
    modifies destination
    ensures Written(destination[..], before, start, d, all)
    ensures all[d - start..] == Encode(source[i + 1..])
  {
    EncodeStep(source, i, all, at - start);
    ghost var e := EncodeByte(source[i]);
    assert forall k :: 0 <= k < |e| ==> all[at - start + k] == e[k];
    d := at;
    if source[i] == '/' {
      assert e[0] == '~' && e[1] == '1';
      destination[d] := '~';
      destination[d + 1] := '1';
      d := d + 1;
    } else if source[i] == '~' {
      assert e[0] == '~' && e[1] == '0';
      destination[d] := '~';
      destination[d + 1] := '0';
      d := d + 1;
    } else {
      assert e[0] == source[i];
      destination[d] := source[i];
    }
    d := d + 1;
  }

  /** `encode_string_as_pointer`, into `destination` from `start` on. */
  method EncodeInto(destination: array<char>, start: nat, source: string)
    requires IsCString(source) && start + |Encode(source)| < destination.Length
    modifies destination
    ensures destination[start..start + |Encode(source)|] == Encode(source)
    ensures destination[start + |Encode(source)|] == NUL
    ensures forall k :: 0 <= k < start || start + |Encode(source)| < k < destination.Length ==>
              destination[k] == old(destination[k])
  {
    ghost var all := Encode(source);
    var i, d := 0, start;
    assert source[0..] == source && all[0..] == all;
    NothingEncoded();
    assert Written(destination[..], old(destination[..]), start, d, all);
    while Byte(source, i) != NUL
      invariant i <= |source| && start <= d <= start + |all|
      invariant Written(destination[..], old(destination[..]), start, d, all)
      invariant all[d - start..] == Encode(source[i..])
      decreases |source| - i
    {
      hide Encode, Written;
      d := EncodeRound(destination, d, source, i, start, all, old(destination[..]));
      i := i + 1;
    }
    hide Encode;
    assert source[i..] == [];
    assert d == start + |all|;
    assert destination[start..d] == all;
    destination[d] := NUL;
    assert destination[start..d] == all;
  }

  lemma NothingEncoded()
    ensures Encode([]) == []
  {}

  /** `decode_array_index_from_pointer`. */
  method DecodeIndexInStep(pointer: string) returns (index: Option<nat>)
    requires IsCString(pointer)
    ensures index == DecodeIndex(pointer)
  {
    if Byte(pointer, 0) == '0' && Byte(pointer, 1) != NUL && Byte(pointer, 1) != '/' { return None; }
    var parsed: nat, position: nat := 0, 0;
    assert pointer[0..] == pointer;
    while Byte(pointer, position) >= '0' && Byte(pointer, 0) <= '9'
      invariant position <= |pointer|
      invariant DecodeDigits(pointer[position..], Byte(pointer, 0), parsed) == DecodeDigits(pointer, Byte(pointer, 0), 0)
      decreases |pointer| - position
    {
      assert pointer[position..][1..] == pointer[position + 1..];
      parsed := (10 * parsed + DigitValue(Byte(pointer, position))) % SIZE_LIMIT;
      position := position + 1;
    }
    if Byte(pointer, position) != NUL && Byte(pointer, position) != '/' { return None; }
    return Some(parsed);
  }

  /** `decode_pointer_inplace`: a string that is never terminated anew keeps its old end. */
  method DecodePointerInPlace(a: array<char>, ghost n: nat)
    requires Holds(a, n)
    modifies a
    ensures var r := DecodeInPlace(old(a[..n])); Holds(a, |r|) && a[..|r|] == r
    ensures forall k :: n < k < a.Length ==> a[k] == old(a[k])
  {
    ghost var s := a[..n];
    var i, d := 0, 0;
    while a[i] != NUL
      invariant d <= i <= n && Holds(a, n)
      invariant DecodeFrom(a[..n], d, i) == DecodeInPlace(s)
      invariant forall k {:trigger a[k]} :: n <= k < a.Length ==> a[k] == old(a[k])
      decreases n - i
    {
      ghost var t := a[..n];
      if a[i] == '~' {
        if a[i + 1] == '0' {
          a[d] := '~';
          assert a[..n] == t[d := '~'];
        } else if a[i + 1] == '1' {
          a[d + 1] := '/';
          assert a[..n] == t[d + 1 := '/'];
        } else {
          return;
        }
        i := i + 1;
      }
      d, i := d + 1, i + 1;
    }
    a[d] := NUL;
  }

  /** The walk along the members of an object in `get_item_from_pointer`. */
  method FindByTokenInStep(members: Members, token: string, caseSensitive: bool) returns (index: nat)
    requires IsCString(token) && forall i :: 0 <= i < |members| ==> IsCString(members[i].key)
    ensures index == FindByToken(members, token, caseSensitive)
  {
    index := 0;
    assert members[0..] == members;
    while index < |members|
      invariant index <= |members|
      invariant index + FindByToken(members[index..], token, caseSensitive) == FindByToken(members, token, caseSensitive)
    {
      assert members[index..][1..] == members[index + 1..];
      var same := ComparePointersInStep(members[index].key, token, caseSensitive);
      if same { return; }
      index := index + 1;
    }
  }

  /** The step to the next path token. */
  method SkipTokenInStep(pointer: string, start: nat) returns (p: nat)
    requires IsCString(pointer) && start <= |pointer|
    ensures start <= p <= |pointer| && pointer[p..] == SkipToken(pointer[start..])
  {
    p := start;
    while Byte(pointer, p) != NUL && Byte(pointer, p) != '/'
      invariant start <= p <= |pointer| && SkipToken(pointer[p..]) == SkipToken(pointer[start..])
      decreases |pointer| - p
    {
      assert pointer[p..][1..] == pointer[p + 1..];
      p := p + 1;
    }
  }

  /** The result of a lookup further down, as seen from above. */
  function Prefixed(here: Address, below: Option<Address>): Option<Address> {
    if below.Some? then Some(here + below.value) else None
  }

  /** One token of a lookup. */
  lemma LookupStep(v: Value, pointer: string, caseSensitive: bool, here: Address)
    requires pointer != [] && pointer[0] == '/'
    ensures var s := Select(v, pointer[1..], caseSensitive);
            Prefixed(here, GetItem(v, pointer, caseSensitive))
            == if s.None? then None
               else Prefixed(here + [s.value], GetItem(Child(v, s.value), SkipToken(pointer[1..]), caseSensitive))
  {
    var s := Select(v, pointer[1..], caseSensitive);
    if s.Some? {
      var below := GetItem(Child(v, s.value), SkipToken(pointer[1..]), caseSensitive);
      if below.Some? { assert here + ([s.value] + below.value) == here + [s.value] + below.value; }
    }
  }

  lemma LookupEnds(v: Value, pointer: string, caseSensitive: bool, here: Address)
    requires pointer == [] || pointer[0] != '/'
    ensures Prefixed(here, GetItem(v, pointer, caseSensitive)) == Some(here)
  {
    assert here + [] == here;
  }

  lemma FromTheRoot(below: Option<Address>)
    ensures Prefixed([], below) == below
  {
    if below.Some? { assert [] + below.value == below.value; }
  }

  predicate CStringKeys(v: Value) {
    match v
    case Array(items) => forall i :: 0 <= i < |items| ==> CStringKeys(items[i])
    case Object(members) => forall i :: 0 <= i < |members| ==> IsCString(members[i].key) && CStringKeys(members[i].item)
    case _ => true
  }

  /** `get_item_from_pointer`. */
  method GetItemInStep(v: Value, pointer: string, caseSensitive: bool) returns (found: Option<Address>)
    requires IsCString(pointer) && CStringKeys(v)
    ensures found == GetItem(v, pointer, caseSensitive)
  {
    hide GetItem, Prefixed, SkipToken, DecodeIndex, FindByToken, CompareStrings, ComparePointers;
    var current, here: Address, p := v, [], 0;
    assert pointer[0..] == pointer;
    FromTheRoot(GetItem(v, pointer, caseSensitive));
    while Byte(pointer, p) == '/'
      invariant p <= |pointer| && CStringKeys(current)
      invariant Prefixed(here, GetItem(current, pointer[p..], caseSensitive)) == GetItem(v, pointer, caseSensitive)
      decreases |pointer| - p
    {
      LookupStep(current, pointer[p..], caseSensitive, here);
      assert pointer[p..][1..] == pointer[p + 1..];
      p := p + 1;
      var index: nat;
      if current.Array? {
        var decoded := DecodeIndexInStep(pointer[p..]);
        if decoded == None { return None; }
        index := decoded.value;
      } else if current.Object? {
        index := FindByTokenInStep(current.members, pointer[p..], caseSensitive);
      } else {
        return None;
      }
      if index >= ChildCount(current) { return None; }
      p := SkipTokenInStep(pointer, p);
      current, here := Child(current, index), here + [index];
    }
    LookupEnds(current, pointer[p..], caseSensitive, here);
    return Some(here);
  }

  /** `cJSONUtils_FindPointerFromObjectTo`, a loop over the children that calls itself for each. */
  method FindPointerInStep(v: Value, here: Address, target: Address) returns (found: Option<string>)
    ensures found == FindPointer(v, here, target)
    decreases v
  {
    if here == target { return Some(""); }
    var i := 0;
    while i < ChildCount(v)
      invariant i <= ChildCount(v)
      invariant FindAmongChildren(v, i, here, target) == FindAmongChildren(v, 0, here, target)
    {
      var below := FindPointerInStep(Child(v, i), here + [i], target);
      if below.Some? {
        if v.Array? { return Some("/" + Decimal(i) + below.value); }
        return Some("/" + Encode(v.members[i].key) + below.value);
      }
      i := i + 1;
    }
    return None;
  }
}

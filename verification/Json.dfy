/**
 JSON trees, and what they mean once the order of object members is forgotten.
 */
module Json {
  import opened CString

  /** A named child, as the `string` field and the rest of a node. */
  datatype Entry<+T> = Entry(key: string, item: T)

  /**
   A cJSON node and everything below it. The children of an array or object are in list order, and
   an object may hold the same key more than once. `Invalid` is the type left behind when a patch
   removes the root.
   */
  datatype Value =
    | Invalid
    | Null
    | False
    | True
    | Number(num: real)
    | String(text: string)
    | Array(items: seq<Value>)
    | Object(members: seq<Entry<Value>>)

  type Members = seq<Entry<Value>>

  /** The meaning of a tree: objects are maps, so member order is gone. */
  datatype Denotation =
    | DInvalid
    | DNull
    | DFalse
    | DTrue
    | DNumber(num: real)
    | DString(text: string)
    | DArray(items: seq<Denotation>)
    | DObject(members: map<string, Denotation>)

  function Denote(v: Value): Denotation
    decreases v, 0
  {
    match v
    case Invalid => DInvalid
    case Null => DNull
    case False => DFalse
    case True => DTrue
    case Number(num) => DNumber(num)
    case String(text) => DString(text)
    case Array(items) => DArray(DenoteItems(items))
    case Object(members) => DObject(DenoteMembers(members))
  }

  function DenoteItems(items: seq<Value>): (r: seq<Denotation>)
    ensures |r| == |items|
    ensures forall i :: 0 <= i < |items| ==> r[i] == Denote(items[i])
    decreases items, 1
  {
    seq(|items|, i requires 0 <= i < |items| => Denote(items[i]))
  }

  /** The first of several members with one key is the one a lookup finds. */
  function DenoteMembers(members: Members): map<string, Denotation>
    decreases members, 1
  {
    if members == [] then map[]
    else DenoteMembers(members[1..])[members[0].key := Denote(members[0].item)]
  }

  /** The type bits of a node, as the library numbers them. */
  function Kind(v: Value): nat {
    match v
    case Invalid => 0
    case False => 1
    case True => 2
    case Null => 4
    case Number(_) => 8
    case String(_) => 16
    case Array(_) => 32
    case Object(_) => 64
  }

  /** No key occurs twice among these members. */
  predicate DistinctKeys<T>(members: seq<Entry<T>>) {
    forall i, j :: 0 <= i < j < |members| ==> members[i].key != members[j].key
  }

  /** No object anywhere in the tree repeats a key. */
  predicate Distinct(v: Value) {
    match v
    case Array(items) => forall i :: 0 <= i < |items| ==> Distinct(items[i])
    case Object(members) =>
      DistinctKeys(members) && forall i :: 0 <= i < |members| ==> Distinct(members[i].item)
    case _ => true
  }

  // ---- Trees within the modelled domain -----------------------------------------------------

  const TEN_TO_15: int := 1_000_000_000_000_000
  const SIZE_LIMIT: int := 0x1_0000_0000_0000_0000

  /** Whole numbers of at most fifteen digits: a double holds them exactly and `%1.15g` prints every digit. */
  predicate IsWhole(num: real) {
    num == num.Floor as real && -TEN_TO_15 < num.Floor < TEN_TO_15
  }

  /** Keys drawn from `keys` that a comparison of the given kind tells apart. */
  ghost predicate ToldApart(keys: iset<string>, caseSensitive: bool) {
    forall k, l :: k in keys && l in keys && Fold(k, caseSensitive) == Fold(l, caseSensitive) ==> k == l
  }

  /**
   The trees the theorems about comparing and patching speak of: no `Invalid` node, whole numbers,
   arrays a `size_t` can index, no repeated key within an object, and keys drawn from `keys`.
   */
  ghost predicate Tame(v: Value, keys: iset<string>) {
    match v
    case Invalid => false
    case Number(num) => IsWhole(num)
    case Array(items) => |items| < SIZE_LIMIT && forall i :: 0 <= i < |items| ==> Tame(items[i], keys)
    case Object(members) =>
      && DistinctKeys(members)
      && forall i :: 0 <= i < |members| ==> members[i].key in keys && Tame(members[i].item, keys)
    case _ => true
  }

  ghost predicate TameMembers(members: Members, keys: iset<string>) {
    && DistinctKeys(members)
    && forall i :: 0 <= i < |members| ==> members[i].key in keys && Tame(members[i].item, keys)
  }

  ghost const ANY_KEY: iset<string> := iset k: string | true

  /** How many arrays and objects enclose the deepest node. */
  function Nesting(v: Value): nat
    decreases v, 0
  {
    match v
    case Array(items) => 1 + ItemsNesting(items)
    case Object(members) => 1 + MembersNesting(members)
    case _ => 0
  }

  function ItemsNesting(items: seq<Value>): (r: nat)
    ensures forall i :: 0 <= i < |items| ==> Nesting(items[i]) <= r
    decreases items, 1
  {
    if items == [] then 0
    else
      var first, rest := Nesting(items[0]), ItemsNesting(items[1..]);
      if first < rest then rest else first
  }

  function MembersNesting(members: Members): (r: nat)
    ensures forall i :: 0 <= i < |members| ==> Nesting(members[i].item) <= r
    decreases members, 1
  {
    if members == [] then 0
    else
      var first, rest := Nesting(members[0].item), MembersNesting(members[1..]);
      if first < rest then rest else first
  }

  // ---- Looking up and editing children ------------------------------------------------------

  /** Position of the first member whose key compares equal to `name`, or the member count. */
  function IndexOf<T>(members: seq<Entry<T>>, name: string, caseSensitive: bool): (i: nat)
    ensures i <= |members|
    ensures i < |members| ==> CompareStrings(name, members[i].key, caseSensitive) == 0
    ensures forall j :: 0 <= j < i ==> CompareStrings(name, members[j].key, caseSensitive) != 0
  {
    if members == [] || CompareStrings(name, members[0].key, caseSensitive) == 0 then 0
    else 1 + IndexOf(members[1..], name, caseSensitive)
  }

  /** `get_object_item`: a node that is not an object has no named children. */
  function GetObjectItem(node: Value, name: string, caseSensitive: bool): (r: Option<Value>)
    ensures r.Some? ==> r.value < node
  {
    if !node.Object? then None
    else
      var i := IndexOf(node.members, name, caseSensitive);
      if i < |node.members| then Some(node.members[i].item) else None
  }

  function Remove<T>(s: seq<T>, i: nat): (r: seq<T>)
    requires i < |s|
    ensures |r| == |s| - 1
    ensures forall j :: 0 <= j < i ==> r[j] == s[j]
    ensures forall j :: i <= j < |r| ==> r[j] == s[j + 1]
  {
    s[..i] + s[i + 1..]
  }

  function Insert<T>(s: seq<T>, i: nat, x: T): (r: seq<T>)
    requires i <= |s|
    ensures |r| == |s| + 1
  {
    s[..i] + [x] + s[i..]
  }

  /** Some member carries this key. */
  ghost predicate HasKey<T>(members: seq<Entry<T>>, k: string) {
    exists i :: 0 <= i < |members| && members[i].key == k
  }

  // ---- Members and the map they denote ------------------------------------------------------

  /** The keys of the map are the keys that occur. */
  lemma {:induction false} DenoteMembersKeys(members: Members, k: string)
    ensures k in DenoteMembers(members) <==> HasKey(members, k)
  {
    if members != [] {
      DenoteMembersKeys(members[1..], k);
      if HasKey(members[1..], k) {
        var i :| 0 <= i < |members[1..]| && members[1..][i].key == k;
        assert members[i + 1].key == k;
      }
      if HasKey(members, k) {
        var i :| 0 <= i < |members| && members[i].key == k;
        if i > 0 { assert members[1..][i - 1].key == k; }
      }
    }
  }

  /** The map sends a key to the first member that carries it. */
  lemma {:induction false} DenoteMembersFirst(members: Members, i: nat)
    requires i < |members|
    requires forall j :: 0 <= j < i ==> members[j].key != members[i].key
    ensures members[i].key in DenoteMembers(members)
    ensures DenoteMembers(members)[members[i].key] == Denote(members[i].item)
  {
    if i > 0 {
      assert members[1..][i - 1] == members[i];
      DenoteMembersFirst(members[1..], i - 1);
      assert members[0].key != members[i].key;
    }
  }

  /** Each member of a list with distinct keys is in the map. */
  lemma DenoteMembersAll(members: Members)
    requires DistinctKeys(members)
    ensures forall i :: 0 <= i < |members| ==>
              && members[i].key in DenoteMembers(members)
              && DenoteMembers(members)[members[i].key] == Denote(members[i].item)
  {
    forall i | 0 <= i < |members|
      ensures && members[i].key in DenoteMembers(members)
              && DenoteMembers(members)[members[i].key] == Denote(members[i].item)
    {
      DenoteMembersFirst(members, i);
    }
  }

  /** A map that holds each member and no other key is the map of the list. */
  lemma {:induction false} DenoteMembersIs(members: Members, m: map<string, Denotation>)
    requires DistinctKeys(members)
    requires forall i :: 0 <= i < |members| ==> members[i].key in m && m[members[i].key] == Denote(members[i].item)
    requires forall k <- m.Keys :: HasKey(members, k)
    ensures DenoteMembers(members) == m
  {
    var d := DenoteMembers(members);
    DenoteMembersAll(members);
    forall k ensures k in d.Keys <==> k in m.Keys {
      DenoteMembersKeys(members, k);
    }
    assert d.Keys == m.Keys;
  }

  lemma {:induction false} DenoteRemove(members: Members, i: nat)
    requires i < |members| && DistinctKeys(members)
    ensures DistinctKeys(Remove(members, i))
    ensures DenoteMembers(Remove(members, i)) == DenoteMembers(members) - {members[i].key}
  {
    var r, m := Remove(members, i), DenoteMembers(members) - {members[i].key};
    DenoteMembersAll(members);
    forall j | 0 <= j < |r| ensures r[j].key in m && m[r[j].key] == Denote(r[j].item) {
      var o := if j < i then j else j + 1;
      assert r[j] == members[o] && members[o].key != members[i].key;
    }
    forall k | k in m.Keys ensures HasKey(r, k) {
      DenoteMembersKeys(members, k);
      var o :| 0 <= o < |members| && members[o].key == k;
      assert r[if o < i then o else o - 1].key == k;
    }
    DenoteMembersIs(r, m);
  }

  lemma {:induction false} DenoteAppend(members: Members, e: Entry<Value>)
    requires DistinctKeys(members) && !HasKey(members, e.key)
    ensures DistinctKeys(members + [e])
    ensures DenoteMembers(members + [e]) == DenoteMembers(members)[e.key := Denote(e.item)]
  {
    var r, m := members + [e], DenoteMembers(members)[e.key := Denote(e.item)];
    DenoteMembersAll(members);
    forall k | k in m.Keys ensures HasKey(r, k) {
      DenoteMembersKeys(members, k);
      if k == e.key { assert r[|members|].key == k; }
      else {
        var i :| 0 <= i < |members| && members[i].key == k;
        assert r[i].key == k;
      }
    }
    DenoteMembersIs(r, m);
  }

  lemma {:induction false} DenoteUpdate(members: Members, i: nat, item: Value)
    requires i < |members| && DistinctKeys(members)
    ensures DistinctKeys(members[i := Entry(members[i].key, item)])
    ensures DenoteMembers(members[i := Entry(members[i].key, item)])
         == DenoteMembers(members)[members[i].key := Denote(item)]
  {
    var r := members[i := Entry(members[i].key, item)];
    var m := DenoteMembers(members)[members[i].key := Denote(item)];
    DenoteMembersAll(members);
    assert forall j :: 0 <= j < |members| && j != i ==> members[j].key != members[i].key;
    forall k | k in m.Keys ensures HasKey(r, k) {
      DenoteMembersKeys(members, k);
      if k == members[i].key { assert r[i].key == k; }
      else {
        var j :| 0 <= j < |members| && members[j].key == k;
        assert r[j].key == k;
      }
    }
    DenoteMembersIs(r, m);
  }

  /** Looking a key up agrees with the map, when the comparison tells the keys in play apart. */
  lemma LookupIsMapAmong(members: Members, k: string, caseSensitive: bool, keys: iset<string>)
    requires ToldApart(keys, caseSensitive) && k in keys
    requires forall i :: 0 <= i < |members| ==> members[i].key in keys
    ensures var i := IndexOf(members, k, caseSensitive);
            && (i < |members| <==> k in DenoteMembers(members))
            && (i < |members| ==> members[i].key == k && DenoteMembers(members)[k] == Denote(members[i].item))
  {
    var i := IndexOf(members, k, caseSensitive);
    DenoteMembersKeys(members, k);
    forall j | 0 <= j < |members|
      ensures CompareStrings(k, members[j].key, caseSensitive) == 0 <==> k == members[j].key
    {
      CompareZero(k, members[j].key, caseSensitive);
    }
    if i < |members| { DenoteMembersFirst(members, i); }
  }

  /** Looking a key up case sensitively always agrees with the map. */
  lemma LookupIsMap(members: Members, k: string)
    ensures var i := IndexOf(members, k, true);
            && (i < |members| <==> k in DenoteMembers(members))
            && (i < |members| ==> members[i].key == k && DenoteMembers(members)[k] == Denote(members[i].item))
  {
    AnyKeyToldApart();
    LookupIsMapAmong(members, k, true, ANY_KEY);
  }

  lemma AnyKeyToldApart()
    ensures ToldApart(ANY_KEY, true)
  {
    forall k, l | Fold(k, true) == Fold(l, true) ensures k == l {
      FoldIsIdentity(k);
      FoldIsIdentity(l);
    }
  }
}

/**
 What the operations of a patch do to the denotation of the tree, for keys a path can carry.
 */
module PatchEffects {
  import opened CString
  import opened Digits
  import opened Json
  import opened Patch
  import opened Places
  import opened Pointer

  /** Keys that the in-place decoder gives back after escaping. */
  predicate SurvivesDecoding(key: string) {
    DecodeInPlace(Encode(key)) == key
  }

  /** A vocabulary of keys that patch paths can address: decodable, and told apart even ignoring case. */
  ghost predicate Addressable(keys: iset<string>) {
    && ToldApart(keys, false)
    && forall k <- keys :: SurvivesDecoding(k)
  }

  lemma ToldApartAnyway(keys: iset<string>, caseSensitive: bool)
    requires ToldApart(keys, false)
    ensures ToldApart(keys, caseSensitive)
  {
    if caseSensitive {
      forall k, l | k in keys && l in keys && Fold(k, true) == Fold(l, true) ensures k == l {
        FoldIsIdentity(k);
        FoldIsIdentity(l);
      }
    }
  }

  lemma {:induction false} SplitsAtLast(parent: string, child: string)
    requires '/' !in child
    ensures SplitLast(parent + "/" + child) == Split(parent, child)
    decreases |child|
  {
    var path := parent + "/" + child;
    if child == [] {
      assert path[..|path| - 1] == parent;
    } else {
      assert path[..|path| - 1] == parent + "/" + child[..|child| - 1];
      SplitsAtLast(parent, child[..|child| - 1]);
      assert child == child[..|child| - 1] + [child[|child| - 1]];
    }
  }

  /** Without escapes the decoder leaves the string alone. */
  lemma {:induction false} DecodesPlain(s: string, i: nat)
    requires i <= |s| && forall j :: 0 <= j < |s| ==> s[j] != '~'
    ensures DecodeFrom(s, i, i) == s
    decreases |s| - i
  {
    if i < |s| { DecodesPlain(s, i + 1); }
  }

  lemma IndexSurvives(i: nat)
    ensures Encode(Decimal(i)) == Decimal(i) && DecodeInPlace(Decimal(i)) == Decimal(i)
    ensures DecodeInPlace(Encode(Decimal(i))) == Decimal(i) && Decimal(i) != "-"
  {
    EncodePlain(Decimal(i));
    DecodesPlain(Decimal(i), 0);
    assert IsDigit(Decimal(i)[0]);
  }

  lemma DashSurvives()
    ensures DecodeInPlace(Encode("-")) == "-"
  {
    EncodePlain("-");
    DecodesPlain("-", 0);
  }

  lemma IndexDecodes(i: nat)
    requires i < SIZE_LIMIT
    ensures DecodeIndex(Decimal(i)) == Some(i)
  {
    IndexReadsBack(i, "");
    assert Decimal(i) + "" == Decimal(i);
  }

  /** The path of a child splits into the path of its parent and its escaped token. */
  lemma PathParts(place: Place, token: string)
    ensures SplitLast(Text(place + [token])) == Split(Text(place), Encode(token))
  {
    TextBelow(place, token);
    SplitsAtLast(Text(place), Encode(token));
  }

  lemma {:induction false} ItemRemoved(items: seq<Value>, i: nat, keys: iset<string>)
    requires i < |items| && Tame(Array(items), keys)
    ensures Tame(Array(Remove(items, i)), keys)
    ensures DenoteItems(Remove(items, i)) == Remove(DenoteItems(items), i)
  {}

  lemma {:induction false} ItemInserted(items: seq<Value>, i: nat, w: Value, keys: iset<string>)
    requires i <= |items| < SIZE_LIMIT - 1 && Tame(Array(items), keys) && Tame(w, keys)
    ensures Tame(Array(Insert(items, i, w)), keys)
    ensures DenoteItems(Insert(items, i, w)) == Insert(DenoteItems(items), i, Denote(w))
  {}

  /** The keys seen in the denotation come from the vocabulary of the tree. */
  lemma KeyInVocabulary(root: Value, place: Place, k: string, keys: iset<string>)
    requires Tame(root, keys) && ToldApart(keys, true)
    requires Find(Denote(root), place).Some? && Find(Denote(root), place).value.DObject?
    requires k in Find(Denote(root), place).value.members
    ensures k in keys
  {
    Resolves(root, place, keys, true);
    DenoteMembersKeys(At(root, GetItem(root, Text(place), true).value).members, k);
  }

  // ---- Detaching ----------------------------------------------------------------------------

  /** What `detach_path` does once the path has been resolved. */
  lemma DetachIs(root: Value, path: string, parentPath: string, encoded: string, i: nat, caseSensitive: bool)
    requires SplitLast(path) == Split(parentPath, encoded)
    requires GetItem(root, parentPath, caseSensitive).Some?
    requires DetachChild(At(root, GetItem(root, parentPath, caseSensitive).value), DecodeInPlace(encoded)) == Some(i)
    ensures i < ChildCount(At(root, GetItem(root, parentPath, caseSensitive).value))
    ensures DetachPath(root, path, caseSensitive).Detached?
    ensures var a := GetItem(root, parentPath, caseSensitive).value;
            DetachPath(root, path, caseSensitive).root == Put(root, a, WithoutChild(At(root, a), i))
  {
    hide SplitLast, GetItem, DecodeInPlace, Put;
  }

  lemma ObjectOf(v: Value, d: Denotation)
    requires Denote(v) == d && d.DObject?
    ensures v.Object? && d.members == DenoteMembers(v.members)
  {}

  lemma DetachesMember(root: Value, place: Place, k: string, keys: iset<string>, caseSensitive: bool)
    requires Tame(root, keys) && Addressable(keys)
    requires Find(Denote(root), place).Some? && Find(Denote(root), place).value.DObject?
    requires k in Find(Denote(root), place).value.members
    ensures var d := DetachPath(root, Text(place + [k]), caseSensitive);
            && d.Detached?
            && Tame(d.root, keys)
            && Denote(d.root) == Overwrite(Denote(root), place, DObject(Find(Denote(root), place).value.members - {k}))
  {
    hide Put, Overwrite, Find, IsNode, Encode, DecodeFrom, DecodeInPlace, SplitLast, GetItem, Tame, ToldApart, DecodeIndex, Decimal;
    ToldApartAnyway(keys, caseSensitive);
    PathParts(place, k);
    Resolves(root, place, keys, caseSensitive);
    var a := GetItem(root, Text(place), caseSensitive).value;
    var parent := At(root, a);
    ObjectOf(parent, Find(Denote(root), place).value);
    TameObject(parent, keys);
    MemberRemoved(parent.members, k, keys);
    assert SurvivesDecoding(k);
    var i := IndexOf(parent.members, k, false);
    assert DetachChild(parent, k) == Some(i);
    hide *;
    DetachIs(root, Text(place + [k]), Text(place), Encode(k), i, caseSensitive);
    ObjectWithout(parent, i, keys);
    PutResolves(root, place, WithoutChild(parent, i), keys, caseSensitive);
  }

  lemma TameObject(v: Value, keys: iset<string>)
    requires v.Object? && Tame(v, keys)
    ensures TameMembers(v.members, keys)
  {}

  lemma ObjectWithout(v: Value, i: nat, keys: iset<string>)
    requires v.Object? && i < |v.members| && TameMembers(Remove(v.members, i), keys)
    ensures i < ChildCount(v) && Tame(WithoutChild(v, i), keys)
    ensures Denote(WithoutChild(v, i)) == DObject(DenoteMembers(Remove(v.members, i)))
  {}

  /** Removing the member that a lookup ignoring case finds. */
  lemma MemberRemoved(members: Members, k: string, keys: iset<string>)
    requires TameMembers(members, keys) && ToldApart(keys, false) && k in DenoteMembers(members)
    ensures var i := IndexOf(members, k, false);
            && k in keys && i < |members| && TameMembers(Remove(members, i), keys)
            && DenoteMembers(Remove(members, i)) == DenoteMembers(members) - {k}
  {
    DenoteMembersKeys(members, k);
    LookupIsMapAmong(members, k, false, keys);
    DenoteRemove(members, IndexOf(members, k, false));
  }

  lemma DetachesItem(root: Value, place: Place, i: nat, keys: iset<string>, caseSensitive: bool)
    requires Tame(root, keys) && ToldApart(keys, caseSensitive)
    requires Find(Denote(root), place).Some? && Find(Denote(root), place).value.DArray?
    requires i < |Find(Denote(root), place).value.items|
    ensures var d := DetachPath(root, Text(place + [Decimal(i)]), caseSensitive);
            && d.Detached?
            && Tame(d.root, keys)
            && Denote(d.root) == Overwrite(Denote(root), place, DArray(Remove(Find(Denote(root), place).value.items, i)))
  {
    hide Put, Overwrite, Find, IsNode, Encode, DecodeFrom, DecodeInPlace, SplitLast, GetItem, Tame, ToldApart, DecodeIndex, Decimal;
    PathParts(place, Decimal(i));
    Resolves(root, place, keys, caseSensitive);
    var a := GetItem(root, Text(place), caseSensitive).value;
    var parent := At(root, a);
    IndexSurvives(i);
    IndexDecodes(i);
    ItemRemoved(parent.items, i, keys);
    assert DetachChild(parent, DecodeInPlace(Encode(Decimal(i)))) == Some(i);
    PutResolves(root, place, WithoutChild(parent, i), keys, caseSensitive);
  }

  // ---- Adding -------------------------------------------------------------------------------

  lemma AddsMember(root: Value, place: Place, k: string, w: Value, keys: iset<string>, caseSensitive: bool)
    requires Tame(root, keys) && Addressable(keys) && k in keys && Tame(w, keys)
    requires Find(Denote(root), place).Some? && Find(Denote(root), place).value.DObject?
    ensures var r := AddAt(root, Text(place + [k]), w, caseSensitive);
            && r.status == 0
            && Tame(r.root, keys)
            && Denote(r.root) ==
                 Overwrite(Denote(root), place, DObject(Find(Denote(root), place).value.members[k := Denote(w)]))
  {
    hide Put, Overwrite, Find, IsNode, Encode, DecodeFrom, DecodeInPlace, SplitLast, GetItem, Tame, ToldApart, DecodeIndex, Decimal, WithoutMember, DenoteMembers;
    ToldApartAnyway(keys, caseSensitive);
    PathParts(place, k);
    Resolves(root, place, keys, caseSensitive);
    var a := GetItem(root, Text(place), caseSensitive).value;
    var members := At(root, a).members;
    ReplacesMember(members, k, w, keys, caseSensitive);
    PutResolves(root, place, Object(WithoutMember(members, k, caseSensitive) + [Entry(k, w)]), keys, caseSensitive);
  }

  /** Deleting a name and appending it anew sets it in the map. */
  lemma ReplacesMember(members: Members, k: string, w: Value, keys: iset<string>, caseSensitive: bool)
    requires TameMembers(members, keys) && ToldApart(keys, caseSensitive) && k in keys && Tame(w, keys)
    ensures var r := WithoutMember(members, k, caseSensitive) + [Entry(k, w)];
            && TameMembers(r, keys)
            && DenoteMembers(r) == DenoteMembers(members)[k := Denote(w)]
  {
    LookupIsMapAmong(members, k, caseSensitive, keys);
    var i := IndexOf(members, k, caseSensitive);
    var left := WithoutMember(members, k, caseSensitive);
    if i < |members| { DenoteRemove(members, i); }
    DenoteMembersKeys(left, k);
    assert k !in DenoteMembers(left);
    DenoteAppend(left, Entry(k, w));
  }

  lemma InsertsItem(root: Value, place: Place, i: nat, w: Value, keys: iset<string>, caseSensitive: bool)
    requires Tame(root, keys) && ToldApart(keys, caseSensitive) && Tame(w, keys)
    requires Find(Denote(root), place).Some? && Find(Denote(root), place).value.DArray?
    requires i <= |Find(Denote(root), place).value.items| < SIZE_LIMIT - 1
    ensures var r := AddAt(root, Text(place + [Decimal(i)]), w, caseSensitive);
            && r.status == 0
            && Tame(r.root, keys)
            && Denote(r.root) ==
                 Overwrite(Denote(root), place, DArray(Insert(Find(Denote(root), place).value.items, i, Denote(w))))
  {
    hide Put, Overwrite, Find, IsNode, Encode, DecodeFrom, DecodeInPlace, SplitLast, GetItem, Tame, ToldApart, DecodeIndex, Decimal;
    PathParts(place, Decimal(i));
    Resolves(root, place, keys, caseSensitive);
    var a := GetItem(root, Text(place), caseSensitive).value;
    var items := At(root, a).items;
    IndexSurvives(i);
    IndexDecodes(i);
    ItemInserted(items, i, w, keys);
    assert At(root, a) == Array(items);
    assert AddAt(root, Text(place + [Decimal(i)]), w, caseSensitive) == Patched(Put(root, a, Array(Insert(items, i, w))), 0);
    PutResolves(root, place, Array(Insert(items, i, w)), keys, caseSensitive);
  }

  lemma AppendsItem(root: Value, place: Place, w: Value, keys: iset<string>, caseSensitive: bool)
    requires Tame(root, keys) && ToldApart(keys, caseSensitive) && Tame(w, keys)
    requires Find(Denote(root), place).Some? && Find(Denote(root), place).value.DArray?
    requires |Find(Denote(root), place).value.items| < SIZE_LIMIT - 1
    ensures var r := AddAt(root, Text(place + ["-"]), w, caseSensitive);
            && r.status == 0
            && Tame(r.root, keys)
            && Denote(r.root) ==
                 Overwrite(Denote(root), place, DArray(Find(Denote(root), place).value.items + [Denote(w)]))
  {
    hide Put, Overwrite, Find, IsNode, Encode, DecodeFrom, DecodeInPlace, SplitLast, GetItem, Tame, ToldApart, DecodeIndex, Decimal;
    PathParts(place, "-");
    Resolves(root, place, keys, caseSensitive);
    DashSurvives();
    var a := GetItem(root, Text(place), caseSensitive).value;
    var items := At(root, a).items;
    ItemInserted(items, |items|, w, keys);
    assert Insert(items, |items|, w) == items + [w];
    assert Insert(DenoteItems(items), |items|, Denote(w)) == DenoteItems(items) + [Denote(w)];
    PutResolves(root, place, Array(items + [w]), keys, caseSensitive);
  }

  // ---- Replacing ----------------------------------------------------------------------------

  /** Detach followed by add at the same path: the `replace` operation away from the root. */
  lemma Replaces(root: Value, place: Place, token: string, w: Value, keys: iset<string>, caseSensitive: bool)
    requires Tame(root, keys) && Addressable(keys) && Tame(w, keys)
    requires Find(Denote(root), place).Some? && Step(Find(Denote(root), place).value, token).Some?
    ensures var d := DetachPath(root, Text(place + [token]), caseSensitive);
            && d.Detached?
            && var r := AddAt(d.root, Text(place + [token]), w, caseSensitive);
            && r.status == 0
            && Tame(r.root, keys)
            && Find(Denote(root), place + [token]).Some?
            && Denote(r.root) == Overwrite(Denote(root), place + [token], Denote(w))
  {
    OverwriteBelow(Denote(root), place, token, Denote(w));
    if Find(Denote(root), place).value.DObject? {
      ReplacesInObject(root, place, token, w, keys, caseSensitive);
    } else {
      ReplacesInArray(root, place, token, w, keys, caseSensitive);
    }
  }

  lemma ReplacesInObject(root: Value, place: Place, token: string, w: Value, keys: iset<string>, caseSensitive: bool)
    requires Tame(root, keys) && Addressable(keys) && Tame(w, keys)
    requires Find(Denote(root), place).Some? && Find(Denote(root), place).value.DObject?
    requires token in Find(Denote(root), place).value.members
    ensures var d := DetachPath(root, Text(place + [token]), caseSensitive);
            && d.Detached?
            && var r := AddAt(d.root, Text(place + [token]), w, caseSensitive);
            && r.status == 0
            && Tame(r.root, keys)
            && Denote(r.root) ==
                 Overwrite(Denote(root), place, StepPut(Find(Denote(root), place).value, token, Denote(w)))
  {
    hide Overwrite, Find, DetachPath, AddAt, Tame, Denote, Text, ToldApart;
    var d, m := Denote(root), Find(Denote(root), place).value.members;
    ToldApartAnyway(keys, caseSensitive);
    ToldApartAnyway(keys, true);
    KeyInVocabulary(root, place, token, keys);
    DetachesMember(root, place, token, keys, caseSensitive);
    FindOverwritten(d, place, DObject(m - {token}));
    AddsMember(DetachPath(root, Text(place + [token]), caseSensitive).root, place, token, w, keys, caseSensitive);
    assert (m - {token})[token := Denote(w)] == m[token := Denote(w)];
    OverwriteTwice(d, place, DObject(m - {token}), DObject(m[token := Denote(w)]));
  }

  lemma ReplacesInArray(root: Value, place: Place, token: string, w: Value, keys: iset<string>, caseSensitive: bool)
    requires Tame(root, keys) && Addressable(keys) && Tame(w, keys)
    requires Find(Denote(root), place).Some? && Find(Denote(root), place).value.DArray?
    requires Step(Find(Denote(root), place).value, token).Some?
    ensures var d := DetachPath(root, Text(place + [token]), caseSensitive);
            && d.Detached?
            && var r := AddAt(d.root, Text(place + [token]), w, caseSensitive);
            && r.status == 0
            && Tame(r.root, keys)
            && Denote(r.root) ==
                 Overwrite(Denote(root), place, StepPut(Find(Denote(root), place).value, token, Denote(w)))
  {
    hide Overwrite, Find, DetachPath, AddAt, GetItem, Tame, ToldApart, Text, Decimal;
    var d, items, i := Denote(root), Find(Denote(root), place).value.items, TokenIndex(token).value;
    ToldApartAnyway(keys, caseSensitive);
    Resolves(root, place, keys, caseSensitive);
    DetachesItem(root, place, i, keys, caseSensitive);
    FindOverwritten(d, place, DArray(Remove(items, i)));
    InsertsItem(DetachPath(root, Text(place + [token]), caseSensitive).root, place, i, w, keys, caseSensitive);
    assert Insert(Remove(items, i), i, Denote(w)) == items[i := Denote(w)];
    OverwriteTwice(d, place, DArray(Remove(items, i)), DArray(items[i := Denote(w)]));
  }
}

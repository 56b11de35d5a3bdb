/**
 Paths that lead nowhere: a lookup misses exactly where the document has nothing, and every operation of
 a patch on such a path returns its status and leaves the document alone.
 */
module Missing {
  import opened Compare
  import opened CString
  import opened Diff
  import opened Digits
  import opened Json
  import Limits
  import opened Patch
  import opened PatchEffects
  import opened PatchOps
  import opened Places
  import opened Pointer
  import TreePatch

  // ---- Tokens -------------------------------------------------------------------------------

  /** A printed index that a `size_t` holds, or a token that does not begin with a digit. */
  predicate Clear(token: string) {
    || (TokenIndex(token).Some? && TokenIndex(token).value < SIZE_LIMIT)
    || (token != "" && !IsDigit(token[0]))
  }

  /** A place written with keys of the vocabulary and printed indices. */
  ghost predicate Written(place: Place, keys: iset<string>) {
    forall i :: 0 <= i < |place| ==> Clear(place[i]) && (place[i] in keys || TokenIndex(place[i]).Some?)
  }

  lemma NoIndexInside(token: string, rest: string)
    requires token != "" && !IsDigit(token[0])
    ensures TokenIndex(token) == None && DecodeIndex(Encode(token) + rest) == None
    ensures token[0] != '/' ==> DecodeIndex(token) == None
  {
    var t := Encode(token) + rest;
    EncodeFront(token, rest);
    assert t[0] == EncodeByte(token[0])[0];
    assert !IsDigit(t[0]);
  }

  lemma IndexAgrees(token: string, rest: string)
    requires Clear(token) && TokenEnds(rest)
    ensures DecodeIndex(Encode(token) + rest) == TokenIndex(token)
    ensures token != "" && token[0] != '/' ==> DecodeIndex(token) == TokenIndex(token)
  {
    if token != "" && !IsDigit(token[0]) {
      NoIndexInside(token, rest);
    } else {
      var i := TokenIndex(token).value;
      EncodePlain(token);
      IndexReadsBack(i, rest);
      IndexReadsBack(i, "");
      assert token + "" == token;
    }
  }

  /** No other key of the vocabulary compares equal to the token. */
  lemma OnlyItself(key: string, token: string, keys: iset<string>, caseSensitive: bool)
    requires ToldApart(keys, caseSensitive) && key in keys && (token in keys || TokenIndex(token).Some?)
    ensures CompareStrings(key, token, caseSensitive) == 0 <==> key == token
  {
    CompareZero(key, token, caseSensitive);
    if token !in keys && Fold(key, caseSensitive) == Fold(token, caseSensitive) {
      DigitsFold(key, token, caseSensitive);
    }
  }

  lemma DigitsFold(key: string, token: string, caseSensitive: bool)
    requires AllDigits(token) && Fold(key, caseSensitive) == Fold(token, caseSensitive)
    ensures key == token
  {
    assert |key| == |Fold(key, caseSensitive)| == |token|;
    forall i | 0 <= i < |key| ensures key[i] == token[i] {
      assert Fold(key, caseSensitive)[i] == Fold(token, caseSensitive)[i];
      assert Norm(key[i], caseSensitive) == Norm(token[i], caseSensitive) && IsDigit(token[i]);
    }
  }

  // ---- Lookup -------------------------------------------------------------------------------

  lemma SelectExactly(v: Value, token: string, rest: string, keys: iset<string>, caseSensitive: bool)
    requires Tame(v, keys) && ToldApart(keys, caseSensitive) && TokenEnds(rest)
    requires Clear(token) && (token in keys || TokenIndex(token).Some?)
    ensures Select(v, Encode(token) + rest, caseSensitive) == None <==> Step(Denote(v), token) == None
  {
    match v
    case Array(items) => IndexAgrees(token, rest);
    case Object(members) =>
      DenoteMembersKeys(members, token);
      forall j | 0 <= j < |members|
        ensures ComparePointers(members[j].key, Encode(token) + rest, caseSensitive) <==> members[j].key == token
      {
        EncodedKeyMatches(members[j].key, token, rest, caseSensitive);
        OnlyItself(members[j].key, token, keys, caseSensitive);
      }
    case _ =>
  }

  /** The lookup misses exactly where there is nothing, wherever on the way that shows. */
  lemma {:induction false} MissesExactly(v: Value, place: Place, keys: iset<string>, caseSensitive: bool)
    requires Tame(v, keys) && ToldApart(keys, caseSensitive) && Written(place, keys)
    ensures GetItem(v, Text(place), caseSensitive) == None <==> Find(Denote(v), place) == None
    decreases |place|
  {
    if place != [] {
      var rest := Text(place[1..]);
      SelectExactly(v, place[0], rest, keys, caseSensitive);
      GetItemStep(v, Encode(place[0]), rest, caseSensitive);
      if Step(Denote(v), place[0]).Some? {
        SelectAgrees(v, place[0], rest, keys, caseSensitive);
        MissesExactly(Child(v, Select(v, Encode(place[0]) + rest, caseSensitive).value), place[1..], keys, caseSensitive);
      }
    }
  }

  /** A pointer that does not begin with a slash leads to the document itself. */
  lemma NoSlashIsRoot(v: Value, pointer: string, caseSensitive: bool)
    requires pointer == "" || pointer[0] != '/'
    ensures GetItem(v, pointer, caseSensitive) == Some([])
  {}

  // ---- Taking out ---------------------------------------------------------------------------

  /** A last token that the in-place decoder gives back. */
  ghost predicate Named(k: string, keys: iset<string>) {
    Clear(k) && (k in keys || TokenIndex(k).Some?)
  }

  lemma NamedSurvives(k: string, keys: iset<string>)
    requires Named(k, keys) && Addressable(keys)
    ensures DecodeInPlace(Encode(k)) == k && k != "" && k[0] != '/'
  {
    if TokenIndex(k).Some? {
      IndexSurvives(TokenIndex(k).value);
    } else {
      assert SurvivesDecoding(k);
      Limits.SurvivesExactly(k);
    }
  }

  lemma LookupExactly(members: Members, k: string, keys: iset<string>, caseSensitive: bool)
    requires TameMembers(members, keys) && ToldApart(keys, caseSensitive) && (k in keys || TokenIndex(k).Some?)
    ensures IndexOf(members, k, caseSensitive) < |members| <==> k in DenoteMembers(members)
  {
    DenoteMembersKeys(members, k);
    forall j | 0 <= j < |members| ensures CompareStrings(k, members[j].key, caseSensitive) == 0 <==> members[j].key == k {
      OnlyItself(members[j].key, k, keys, caseSensitive);
      CompareFlips(k, members[j].key, caseSensitive);
    }
  }

  lemma ChildExactly(parent: Value, k: string, keys: iset<string>)
    requires Tame(parent, keys) && ToldApart(keys, false) && Named(k, keys) && k != "" && k[0] != '/'
    ensures DetachChild(parent, k) == None <==> Step(Denote(parent), k) == None
  {
    match parent
    case Array(_) => IndexAgrees(k, "");
    case Object(members) =>
      TameObject(parent, keys);
      LookupExactly(members, k, keys, false);
    case _ =>
  }

  /** There is nothing to detach exactly where the document has nothing. */
  lemma DetachMissesExactly(root: Value, place: Place, k: string, keys: iset<string>, caseSensitive: bool)
    requires Tame(root, keys) && Addressable(keys) && Written(place, keys) && Named(k, keys)
    ensures DetachPath(root, Text(place + [k]), caseSensitive) == NotFound <==> Find(Denote(root), place + [k]) == None
  {
    ToldApartAnyway(keys, caseSensitive);
    NamedSurvives(k, keys);
    PathParts(place, k);
    MissesExactly(root, place, keys, caseSensitive);
    NoneBelow(Denote(root), place, k);
    if Find(Denote(root), place).Some? {
      Resolves(root, place, keys, caseSensitive);
      ChildExactly(At(root, GetItem(root, Text(place), caseSensitive).value), k, keys);
    }
    hide GetItem, SplitLast, Find, Step, Tame, Denote, DetachChild, Text, At, DecodeInPlace, Encode;
  }

  lemma {:induction false} NoneBelow(d: Denotation, place: Place, k: string)
    ensures Find(d, place + [k]) == if Find(d, place).Some? then Step(Find(d, place).value, k) else None
    decreases |place|
  {
    if Find(d, place).Some? {
      FindBelow(d, place, k);
    } else {
      assert (place + [k])[0] == place[0] && (place + [k])[1..] == place[1..] + [k];
      if Step(d, place[0]).Some? { NoneBelow(Step(d, place[0]).value, place[1..], k); }
    }
  }

  // ---- Putting in ---------------------------------------------------------------------------

  /** The status of an addition, by what the document has at the parent. */
  function AddOutcome(parent: Option<Denotation>, k: string): int {
    match parent
    case Some(DObject(_)) => 0
    case Some(DArray(items)) =>
      if k == "-" then 0
      else
        (match TokenIndex(k)
         case None => 11
         case Some(i) => if i > |items| then 10 else 0)
    case _ => 9
  }

  lemma AddStatusExactly(root: Value, place: Place, k: string, w: Value, keys: iset<string>, caseSensitive: bool)
    requires Tame(root, keys) && ToldApart(keys, caseSensitive) && Written(place, keys)
    requires Clear(k) && DecodeInPlace(Encode(k)) == k && k[0] != '/'
    ensures AddAt(root, Text(place + [k]), w, caseSensitive).status == AddOutcome(Find(Denote(root), place), k)
  {
    PathParts(place, k);
    MissesExactly(root, place, keys, caseSensitive);
    if Find(Denote(root), place).Some? {
      Resolves(root, place, keys, caseSensitive);
      var parent := At(root, GetItem(root, Text(place), caseSensitive).value);
      AddStatusAt(root, Text(place + [k]), Text(place), k, parent, w, caseSensitive);
    }
    hide GetItem, SplitLast, Find, Tame, Denote, Text, At, DecodeInPlace, Encode, Put;
  }

  lemma AddStatusAt(root: Value, path: string, parentPath: string, k: string, parent: Value, w: Value, caseSensitive: bool)
    requires SplitLast(path) == Split(parentPath, Encode(k)) && DecodeInPlace(Encode(k)) == k && Clear(k) && k[0] != '/'
    requires GetItem(root, parentPath, caseSensitive).Some?
    requires parent == At(root, GetItem(root, parentPath, caseSensitive).value)
    ensures AddAt(root, path, w, caseSensitive).status == AddOutcome(Some(Denote(parent)), k)
  {
    var a := GetItem(root, parentPath, caseSensitive).value;
    hide GetItem, SplitLast, DecodeInPlace, Encode, Put, Clear, At, AddAt, TokenIndex, DecodeIndex, WithoutMember;
    match parent
    case Object(_) => TreePatch.AtObject(root, path, a, w, caseSensitive);
    case Array(_) => InArray(root, path, parentPath, k, parent, w, caseSensitive);
    case _ => AtScalar(root, path, a, w, caseSensitive);
  }

  lemma InArray(root: Value, path: string, parentPath: string, k: string, parent: Value, w: Value, caseSensitive: bool)
    requires SplitLast(path) == Split(parentPath, Encode(k)) && DecodeInPlace(Encode(k)) == k && Clear(k) && k[0] != '/'
    requires GetItem(root, parentPath, caseSensitive).Some? && parent.Array?
    requires parent == At(root, GetItem(root, parentPath, caseSensitive).value)
    ensures AddAt(root, path, w, caseSensitive).status == AddOutcome(Some(Denote(parent)), k)
  {
    var a := GetItem(root, parentPath, caseSensitive).value;
    SlotIs(k, |parent.items|);
    hide GetItem, SplitLast, DecodeInPlace, Encode, Put, Clear, At, AddAt, TokenIndex, DecodeIndex, Insert, TreePatch.Slot;
    TreePatch.AtArray(root, path, a, w, caseSensitive);
  }

  lemma SlotIs(k: string, n: nat)
    requires Clear(k) && k[0] != '/'
    ensures TreePatch.Slot(k, n) == if k == "-" then Some(n) else TokenIndex(k)
  {
    IndexAgrees(k, "");
    assert k + "" == k;
    hide DecodeIndex, TokenIndex;
  }

  lemma AtScalar(root: Value, path: string, a: Address, w: Value, caseSensitive: bool)
    requires var split := SplitLast(path); split.Split? && GetItem(root, split.parent, caseSensitive) == Some(a)
    requires !At(root, a).Object? && !At(root, a).Array?
    ensures AddAt(root, path, w, caseSensitive) == Patched(root, 9)
  {
    hide SplitLast, GetItem, DecodeInPlace, At;
  }

  // ---- The operations -----------------------------------------------------------------------

  /** `test` on any written place: success exactly when the place is there with an equal value. */
  lemma TestExactly(root: Value, place: Place, w: Value, keys: iset<string>, caseSensitive: bool)
    requires Tame(root, keys) && Tame(w, keys) && ToldApart(keys, caseSensitive) && Written(place, keys)
    ensures var r := ApplyPatch(root, MakePatch("test", Text(place), Some(w)), caseSensitive);
            && r.status == (if Find(Denote(root), place) == Some(Denote(w)) then 0 else 1)
            && Denote(r.root) == Denote(root)
            && (Find(Denote(root), place) == None ==> r.root == root)
  {
    MissesExactly(root, place, keys, caseSensitive);
    if Find(Denote(root), place).Some? {
      TestDecides(root, place, w, keys, caseSensitive);
    } else {
      TestMisses(root, Text(place), w, caseSensitive);
    }
  }

  lemma TestMisses(root: Value, path: string, w: Value, caseSensitive: bool)
    requires GetItem(root, path, caseSensitive) == None
    ensures ApplyPatch(root, MakePatch("test", path, Some(w)), caseSensitive) == Patched(root, 1)
  {
    ReadsOperation("test", path, Some(w), caseSensitive);
    OperationNames();
    hide GetItem, GetObjectItem, MakePatch;
    assert DecodeOperation(MakePatch("test", path, Some(w)), caseSensitive) == Test;
  }

  /** `remove` and `replace` where there is nothing: 13, and nothing changes. */
  lemma RemoveMisses(root: Value, place: Place, k: string, w: Value, keys: iset<string>, caseSensitive: bool)
    requires Tame(root, keys) && Addressable(keys) && Written(place, keys) && Named(k, keys)
    requires Find(Denote(root), place + [k]) == None
    ensures ApplyPatch(root, MakePatch("remove", Text(place + [k]), None), caseSensitive) == Patched(root, 13)
    ensures ApplyPatch(root, MakePatch("replace", Text(place + [k]), Some(w)), caseSensitive) == Patched(root, 13)
  {
    DetachMissesExactly(root, place, k, keys, caseSensitive);
    TextBelow(place, k);
    assert Text(place + [k]) != "";
    hide Text, DetachPath, ApplyPatch, MakePatch;
    ReadsRemove(root, Text(place + [k]), caseSensitive);
    ReadsReplace(root, Text(place + [k]), w, caseSensitive);
  }

  /** `move` from where there is nothing: 5, and nothing changes. */
  lemma MoveMisses(root: Value, place: Place, k: string, path: string, keys: iset<string>, caseSensitive: bool)
    requires Tame(root, keys) && Addressable(keys) && Written(place, keys) && Named(k, keys)
    requires Find(Denote(root), place + [k]) == None
    ensures ApplyPatch(root, Transfer("move", Text(place + [k]), path), caseSensitive) == Patched(root, 5)
  {
    DetachMissesExactly(root, place, k, keys, caseSensitive);
    NothingToMove(root, Text(place + [k]), path, caseSensitive);
  }

  lemma NothingToMove(root: Value, source: string, path: string, caseSensitive: bool)
    requires DetachPath(root, source, caseSensitive) == NotFound
    ensures ApplyPatch(root, Transfer("move", source, path), caseSensitive) == Patched(root, 5)
  {
    ReadsTransfer("move", source, path, caseSensitive);
    OperationNames();
    hide DetachPath, Transfer, GetObjectItem, AddAt;
    assert DecodeOperation(Transfer("move", source, path), caseSensitive) == Move;
  }

  /** `move` of something there: the status is that of the addition to what is left. */
  lemma MoveStatus(root: Value, source: Place, from: Spot, place: Place, k: string, keys: iset<string>, caseSensitive: bool)
    requires Tame(root, keys) && Addressable(keys) && Written(place, keys)
    requires Find(Denote(root), source).Some? && Holds(Find(Denote(root), source).value, from)
    requires Clear(k) && DecodeInPlace(Encode(k)) == k && k[0] != '/'
    ensures var without := Overwrite(Denote(root), source, TakenFrom(Find(Denote(root), source).value, from));
            ApplyPatch(root, Transfer("move", Text(source + [Token(from)]), Text(place + [k])), caseSensitive).status
            == AddOutcome(Find(without, place), k)
  {
    ToldApartAnyway(keys, caseSensitive);
    Detaches(root, source, from, keys, caseSensitive);
    var d := DetachPath(root, Text(source + [Token(from)]), caseSensitive);
    hide *;
    ReadsMove(root, Text(source + [Token(from)]), Text(place + [k]), caseSensitive);
    AddStatusExactly(d.root, place, k, d.item, keys, caseSensitive);
  }

  /** `copy`: 5 from where there is nothing, and otherwise the status of the addition. */
  lemma CopyStatus(root: Value, source: Place, place: Place, k: string, keys: iset<string>, caseSensitive: bool)
    requires Tame(root, keys) && Addressable(keys) && Written(source, keys) && Written(place, keys)
    requires Clear(k) && DecodeInPlace(Encode(k)) == k && k[0] != '/'
    ensures var r := ApplyPatch(root, Transfer("copy", Text(source), Text(place + [k])), caseSensitive);
            if Find(Denote(root), source) == None then r == Patched(root, 5)
            else r.status == AddOutcome(Find(Denote(root), place), k)
  {
    ToldApartAnyway(keys, caseSensitive);
    MissesExactly(root, source, keys, caseSensitive);
    if Find(Denote(root), source) == None {
      CopyMisses(root, Text(source), Text(place + [k]), caseSensitive);
    } else {
      var w := At(root, GetItem(root, Text(source), caseSensitive).value);
      hide Text, ApplyPatch, Find, Denote, Tame, At;
      ReadsCopy(root, Text(source), Text(place + [k]), caseSensitive);
      AddStatusExactly(root, place, k, w, keys, caseSensitive);
    }
  }

  lemma CopyMisses(root: Value, source: string, path: string, caseSensitive: bool)
    requires GetItem(root, source, caseSensitive) == None
    ensures ApplyPatch(root, Transfer("copy", source, path), caseSensitive) == Patched(root, 5)
  {
    ReadsTransfer("copy", source, path, caseSensitive);
    OperationNames();
    hide GetItem, Transfer, GetObjectItem, AddAt;
    assert DecodeOperation(Transfer("copy", source, path), caseSensitive) == Operation.Copy;
  }

  /** `add`: 9 without a parent or below a scalar, 10 behind the end of an array, 11 where no index is. */
  lemma AddStatus(root: Value, place: Place, k: string, w: Value, keys: iset<string>, caseSensitive: bool)
    requires Tame(root, keys) && ToldApart(keys, caseSensitive) && Written(place, keys)
    requires Clear(k) && DecodeInPlace(Encode(k)) == k && k[0] != '/'
    ensures ApplyPatch(root, MakePatch("add", Text(place + [k]), Some(w)), caseSensitive).status
         == AddOutcome(Find(Denote(root), place), k)
  {
    TextBelow(place, k);
    assert Text(place + [k]) != "";
    AddStatusExactly(root, place, k, w, keys, caseSensitive);
    hide Text, ApplyPatch, AddAt;
    ReadsAdd(root, Text(place + [k]), w, caseSensitive);
  }

  // ---- Patches that are not well formed -----------------------------------------------------

  /** Without a string `path` the status is 2, before anything else is looked at. */
  lemma NoPath(root: Value, patch: Value, caseSensitive: bool)
    requires var path := GetObjectItem(patch, "path", caseSensitive); path.None? || !path.value.String?
    ensures ApplyPatch(root, patch, caseSensitive) == Patched(root, 2)
  {
    hide GetObjectItem, DecodeOperation, GetItem, DetachPath, AddAt;
  }

  /** An operation that is none of the six: 3. */
  lemma UnknownOperation(root: Value, operation: string, path: string, value: Option<Value>, caseSensitive: bool)
    requires operation !in {"add", "remove", "replace", "move", "copy", "test"}
    ensures ApplyPatch(root, MakePatch(operation, path, value), caseSensitive) == Patched(root, 3)
  {
    ReadsOperation(operation, path, value, caseSensitive);
    hide GetObjectItem, MakePatch, GetItem, DetachPath, AddAt;
    assert DecodeOperation(MakePatch(operation, path, value), caseSensitive) == InvalidOperation;
  }

  /** `add` without a value: 7. */
  lemma AddWithoutValue(root: Value, path: string, caseSensitive: bool)
    ensures ApplyPatch(root, MakePatch("add", path, None), caseSensitive) == Patched(root, 7)
  {
    ReadsOperation("add", path, None, caseSensitive);
    hide GetObjectItem, MakePatch, GetItem, DetachPath, AddAt;
    assert DecodeOperation(MakePatch("add", path, None), caseSensitive) == Add;
  }

  /** `copy` and `move` without a source: 4. */
  lemma TransferWithoutSource(root: Value, path: string, value: Option<Value>, caseSensitive: bool)
    ensures ApplyPatch(root, MakePatch("copy", path, value), caseSensitive) == Patched(root, 4)
    ensures ApplyPatch(root, MakePatch("move", path, value), caseSensitive) == Patched(root, 4)
  {
    ReadsOperation("copy", path, value, caseSensitive);
    ReadsOperation("move", path, value, caseSensitive);
    OperationNames();
    NoSource("copy", path, value, caseSensitive);
    NoSource("move", path, value, caseSensitive);
    hide GetObjectItem, MakePatch, GetItem, DetachPath, AddAt;
    assert DecodeOperation(MakePatch("copy", path, value), caseSensitive) == Operation.Copy;
    assert DecodeOperation(MakePatch("move", path, value), caseSensitive) == Move;
  }

  lemma NoSource(operation: string, path: string, value: Option<Value>, caseSensitive: bool)
    ensures GetObjectItem(MakePatch(operation, path, value), "from", caseSensitive) == None
  {
    FromDiffers(caseSensitive);
    var p := MakePatch(operation, path, value);
    CompareFlips("from", "path", caseSensitive);
    CompareFlips("from", "value", caseSensitive);
    forall i | 0 <= i < |p.members| ensures CompareStrings("from", p.members[i].key, caseSensitive) != 0 {}
  }

  /** A patch that is no array of operations is refused, and nothing is changed. */
  lemma PatchesAreAnArray(root: Value, patches: Value, caseSensitive: bool)
    requires !patches.Array?
    ensures ApplyPatches(root, patches, caseSensitive) == Patched(root, 1)
  {}

  /** The path of the whole document: it is emptied or replaced. */
  lemma WholeDocument(root: Value, w: Value, caseSensitive: bool)
    ensures ApplyPatch(root, MakePatch("remove", "", None), caseSensitive) == Patched(Invalid, 0)
    ensures ApplyPatch(root, MakePatch("add", "", Some(w)), caseSensitive) == Patched(w, 0)
    ensures ApplyPatch(root, MakePatch("replace", "", Some(w)), caseSensitive) == Patched(w, 0)
    ensures ApplyPatch(root, MakePatch("add", "", None), caseSensitive) == Patched(root, 7)
    ensures ApplyPatch(root, MakePatch("replace", "", None), caseSensitive) == Patched(root, 7)
  {
    ReadsOperation("remove", "", None, caseSensitive);
    ReadsOperation("add", "", Some(w), caseSensitive);
    ReadsOperation("replace", "", Some(w), caseSensitive);
    ReadsOperation("add", "", None, caseSensitive);
    ReadsOperation("replace", "", None, caseSensitive);
    OperationNames();
    hide GetObjectItem, MakePatch, GetItem, DetachPath, AddAt;
  }
}

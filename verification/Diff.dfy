/**
 Generating a patch from two trees, and the proof that applying it leads from the one to the other.
 */
module Diff {
  import opened CString
  import opened Compare
  import opened Digits
  import opened Json
  import opened KeySort
  import opened Patch
  import opened PatchEffects
  import opened Places
  import opened Pointer

  /** `compose_patch` with its operation, full path and optional value. */
  function MakePatch(operation: string, path: string, value: Option<Value>): Value {
    Object([Entry("op", String(operation)), Entry("path", String(path))]
           + if value.Some? then [Entry("value", value.value)] else [])
  }

  /** `create_patches`. */
  function CreatePatches(path: string, from: Value, to: Value, caseSensitive: bool): seq<Value>
    decreases from, 2
  {
    if Kind(from) != Kind(to) then [MakePatch("replace", path, Some(to))]
    else
      match from
      case Number(num) =>
        if ValueInt(num) != ValueInt(to.num) || !CompareDouble(num, to.num)
        then [MakePatch("replace", path, Some(to))] else []
      case String(text) =>
        if text != to.text then [MakePatch("replace", path, Some(to))] else []
      case Array(items) => CreateItemPatches(path, from, to, 0, caseSensitive)
      case Object(members) =>
        SortMembers(members, caseSensitive);
        CreateMemberPatches(path, from, Sort(members, caseSensitive), Sort(to.members, caseSensitive), caseSensitive)
      case _ => []
  }

  /** The array case: common indices first, then a tail to remove or to append. */
  function CreateItemPatches(path: string, from: Value, to: Value, index: nat, caseSensitive: bool): seq<Value>
    requires from.Array? && to.Array? && index <= |from.items| && index <= |to.items|
    decreases from, 1, |from.items| - index
  {
    if index < |from.items| && index < |to.items| then
      CreatePatches(path + "/" + Decimal(index), from.items[index], to.items[index], caseSensitive)
      + CreateItemPatches(path, from, to, index + 1, caseSensitive)
    else
      RemoveTail(path, index, |from.items| - index) + AppendTail(path, to.items[index..])
  }

  /** Every leftover element is removed at the same index. */
  function RemoveTail(path: string, index: nat, count: nat): seq<Value> {
    if count == 0 then []
    else [MakePatch("remove", path + "/" + Encode(Decimal(index)), None)] + RemoveTail(path, index, count - 1)
  }

  function AppendTail(path: string, items: seq<Value>): seq<Value> {
    if items == [] then []
    else [MakePatch("add", path + "/" + Encode("-"), Some(items[0]))] + AppendTail(path, items[1..])
  }

  /** The object case: a walk over both sorted member lists. */
  function CreateMemberPatches(path: string, ghost whole: Value, from: Members, to: Members, caseSensitive: bool): seq<Value>
    requires whole.Object? && forall e :: e in from ==> e in whole.members
    decreases whole, 1, |from| + |to|
  {
    if from == [] && to == [] then []
    else
      var diff := if from == [] then 1
                  else if to == [] then -1
                  else CompareStrings(from[0].key, to[0].key, caseSensitive);
      if diff == 0 then
        assert from[0] in whole.members;
        CreatePatches(path + "/" + Encode(from[0].key), from[0].item, to[0].item, caseSensitive)
        + CreateMemberPatches(path, whole, from[1..], to[1..], caseSensitive)
      else if diff < 0 then
        [MakePatch("remove", path + "/" + Encode(from[0].key), None)]
        + CreateMemberPatches(path, whole, from[1..], to, caseSensitive)
      else
        [MakePatch("add", path + "/" + Encode(to[0].key), Some(to[0].item))]
        + CreateMemberPatches(path, whole, from, to[1..], caseSensitive)
  }

  function GeneratePatches(from: Value, to: Value, caseSensitive: bool): Value {
    Array(CreatePatches("", from, to, caseSensitive))
  }

  // ---- Reading a generated operation back ---------------------------------------------------

  lemma ReadsOperation(operation: string, path: string, value: Option<Value>, caseSensitive: bool)
    ensures var p := MakePatch(operation, path, value);
            && GetObjectItem(p, "op", caseSensitive) == Some(String(operation))
            && GetObjectItem(p, "path", caseSensitive) == Some(String(path))
            && GetObjectItem(p, "value", caseSensitive) == value
  {
    var p := MakePatch(operation, path, value);
    PatchNamesDiffer(caseSensitive);
    assert IndexOf(p.members, "op", caseSensitive) == 0;
    assert IndexOf(p.members, "path", caseSensitive) == 1 by {
      assert p.members[1].key == "path";
    }
    var i := IndexOf(p.members, "value", caseSensitive);
    assert i >= 2;
    if value.Some? { assert p.members[2].key == "value"; }
  }

  lemma PatchNamesDiffer(caseSensitive: bool)
    ensures CompareStrings("path", "op", caseSensitive) != 0
    ensures CompareStrings("value", "op", caseSensitive) != 0
    ensures CompareStrings("value", "path", caseSensitive) != 0
    ensures CompareStrings("op", "op", caseSensitive) == 0
    ensures CompareStrings("path", "path", caseSensitive) == 0
    ensures CompareStrings("value", "value", caseSensitive) == 0
  {
    CompareZero("op", "op", caseSensitive);
    CompareZero("path", "path", caseSensitive);
    CompareZero("value", "value", caseSensitive);
    assert "path"[0] == 'p' && "op"[0] == 'o' && "value"[0] == 'v';
  }

  lemma ReadsRemove(root: Value, path: string, caseSensitive: bool)
    requires path != ""
    ensures var d := DetachPath(root, path, caseSensitive);
            ApplyPatch(root, MakePatch("remove", path, None), caseSensitive) ==
              if d.Detached? then Patched(d.root, 0) else Patched(root, 13)
  {
    ReadsOperation("remove", path, None, caseSensitive);
    assert "remove"[0] == 'r' && "add"[0] == 'a';
  }

  lemma ReadsReplace(root: Value, path: string, value: Value, caseSensitive: bool)
    ensures var d := DetachPath(root, path, caseSensitive);
            ApplyPatch(root, MakePatch("replace", path, Some(value)), caseSensitive) ==
              if path == "" then Patched(value, 0)
              else if d.Detached? then AddAt(d.root, path, value, caseSensitive)
              else Patched(root, 13)
  {
    hide DetachPath, AddAt, GetItem, MakePatch, CompareJson;
    ReadsOperation("replace", path, Some(value), caseSensitive);
    assert "replace"[0] == 'r' && "add"[0] == 'a' && |"replace"| != |"remove"|;
  }

  lemma ReadsAdd(root: Value, path: string, value: Value, caseSensitive: bool)
    requires path != ""
    ensures ApplyPatch(root, MakePatch("add", path, Some(value)), caseSensitive) ==
              AddAt(root, path, value, caseSensitive)
  {
    ReadsOperation("add", path, Some(value), caseSensitive);
  }

  // ---- Patches that have an effect ----------------------------------------------------------

  /** Applying `patches` succeeds and turns the denotation of `root` into `wanted`. */
  ghost predicate LeadsTo(root: Value, patches: seq<Value>, wanted: Denotation, keys: iset<string>, caseSensitive: bool) {
    var r := ApplyAll(root, patches, caseSensitive);
    r.status == 0 && Tame(r.root, keys) && Denote(r.root) == wanted
  }

  lemma Led(root: Value, patches: seq<Value>, wanted: Denotation, keys: iset<string>, caseSensitive: bool)
    requires LeadsTo(root, patches, wanted, keys, caseSensitive)
    ensures var r := ApplyAll(root, patches, caseSensitive).root; Tame(r, keys) && Denote(r) == wanted
  {}

  lemma LeadsOn(root: Value, first: seq<Value>, second: seq<Value>, middle: Denotation, wanted: Denotation,
                keys: iset<string>, caseSensitive: bool)
    requires LeadsTo(root, first, middle, keys, caseSensitive)
    requires LeadsTo(ApplyAll(root, first, caseSensitive).root, second, wanted, keys, caseSensitive)
    ensures LeadsTo(root, first + second, wanted, keys, caseSensitive)
  {
    ApplyAllConcat(root, first, second, caseSensitive);
  }

  /** A list of one operation. */
  lemma OnePatch(root: Value, patch: Value, caseSensitive: bool)
    ensures ApplyAll(root, [patch], caseSensitive) == ApplyPatch(root, patch, caseSensitive)
  {
    var first := ApplyPatch(root, patch, caseSensitive);
    assert [patch][1..] == [];
    assert ApplyAll(first.root, [], caseSensitive) == Patched(first.root, 0);
  }

  lemma ReplacePatch(root: Value, place: Place, w: Value, keys: iset<string>, caseSensitive: bool)
    requires Tame(root, keys) && Addressable(keys) && Tame(w, keys) && Find(Denote(root), place).Some?
    ensures LeadsTo(root, [MakePatch("replace", Text(place), Some(w))], Overwrite(Denote(root), place, Denote(w)),
                    keys, caseSensitive)
  {
    hide Find, ApplyAll, ApplyPatch, DetachPath, AddAt, Tame, Addressable, MakePatch;
    OnePatch(root, MakePatch("replace", Text(place), Some(w)), caseSensitive);
    ReadsReplace(root, Text(place), w, caseSensitive);
    if place != [] {
      var parent, token := place[..|place| - 1], place[|place| - 1];
      assert place == parent + [token];
      TextBelow(parent, token);
      FindOfPrefix(Denote(root), parent, token);
      Replaces(root, parent, token, w, keys, caseSensitive);
    }
  }

  lemma {:induction false} FindOfPrefix(d: Denotation, place: Place, token: string)
    requires Find(d, place + [token]).Some?
    ensures Find(d, place).Some? && Step(Find(d, place).value, token).Some?
    decreases |place|
  {
    if place == [] {
      assert (place + [token])[1..] == [];
    } else {
      assert (place + [token])[1..] == place[1..] + [token];
      FindOfPrefix(Step(d, place[0]).value, place[1..], token);
    }
  }

  lemma RemoveMemberPatch(root: Value, place: Place, k: string, keys: iset<string>, caseSensitive: bool)
    requires Tame(root, keys) && Addressable(keys)
    requires Find(Denote(root), place).Some? && Find(Denote(root), place).value.DObject?
    requires k in Find(Denote(root), place).value.members
    ensures LeadsTo(root, [MakePatch("remove", Text(place) + "/" + Encode(k), None)],
                    Overwrite(Denote(root), place, DObject(Find(Denote(root), place).value.members - {k})),
                    keys, caseSensitive)
  {
    TextBelow(place, k);
    ReadsRemove(root, Text(place + [k]), caseSensitive);
    OnePatch(root, MakePatch("remove", Text(place + [k]), None), caseSensitive);
    DetachesMember(root, place, k, keys, caseSensitive);
  }

  lemma AddMemberPatch(root: Value, place: Place, k: string, w: Value, keys: iset<string>, caseSensitive: bool)
    requires Tame(root, keys) && Addressable(keys) && k in keys && Tame(w, keys)
    requires Find(Denote(root), place).Some? && Find(Denote(root), place).value.DObject?
    ensures LeadsTo(root, [MakePatch("add", Text(place) + "/" + Encode(k), Some(w))],
                    Overwrite(Denote(root), place, DObject(Find(Denote(root), place).value.members[k := Denote(w)])),
                    keys, caseSensitive)
  {
    TextBelow(place, k);
    ReadsAdd(root, Text(place + [k]), w, caseSensitive);
    OnePatch(root, MakePatch("add", Text(place + [k]), Some(w)), caseSensitive);
    AddsMember(root, place, k, w, keys, caseSensitive);
  }

  lemma RemoveItemPatch(root: Value, place: Place, i: nat, keys: iset<string>, caseSensitive: bool)
    requires Tame(root, keys) && ToldApart(keys, caseSensitive)
    requires Find(Denote(root), place).Some? && Find(Denote(root), place).value.DArray?
    requires i < |Find(Denote(root), place).value.items|
    ensures LeadsTo(root, [MakePatch("remove", Text(place) + "/" + Encode(Decimal(i)), None)],
                    Overwrite(Denote(root), place, DArray(Remove(Find(Denote(root), place).value.items, i))),
                    keys, caseSensitive)
  {
    TextBelow(place, Decimal(i));
    ReadsRemove(root, Text(place + [Decimal(i)]), caseSensitive);
    OnePatch(root, MakePatch("remove", Text(place + [Decimal(i)]), None), caseSensitive);
    DetachesItem(root, place, i, keys, caseSensitive);
  }

  lemma AppendPatch(root: Value, place: Place, w: Value, keys: iset<string>, caseSensitive: bool)
    requires Tame(root, keys) && ToldApart(keys, caseSensitive) && Tame(w, keys)
    requires Find(Denote(root), place).Some? && Find(Denote(root), place).value.DArray?
    requires |Find(Denote(root), place).value.items| < SIZE_LIMIT - 1
    ensures LeadsTo(root, [MakePatch("add", Text(place) + "/" + Encode("-"), Some(w))],
                    Overwrite(Denote(root), place, DArray(Find(Denote(root), place).value.items + [Denote(w)])),
                    keys, caseSensitive)
  {
    TextBelow(place, "-");
    ReadsAdd(root, Text(place + ["-"]), w, caseSensitive);
    OnePatch(root, MakePatch("add", Text(place + ["-"]), Some(w)), caseSensitive);
    AppendsItem(root, place, w, keys, caseSensitive);
  }

  // ---- Diff, then apply ---------------------------------------------------------------------

  /** Two stretches of patches that rewrite the same place, one after the other. */
  lemma SamePlace(root: Value, place: Place, first: seq<Value>, second: seq<Value>, x: Denotation, y: Denotation,
                  keys: iset<string>, caseSensitive: bool)
    requires Find(Denote(root), place).Some?
    requires LeadsTo(root, first, Overwrite(Denote(root), place, x), keys, caseSensitive)
    requires var middle := ApplyAll(root, first, caseSensitive).root;
             Find(Denote(middle), place).Some? &&
             LeadsTo(middle, second, Overwrite(Denote(middle), place, y), keys, caseSensitive)
    ensures LeadsTo(root, first + second, Overwrite(Denote(root), place, y), keys, caseSensitive)
  {
    OverwriteTwice(Denote(root), place, x, y);
    LeadsOn(root, first, second, Overwrite(Denote(root), place, x), Overwrite(Denote(root), place, y), keys, caseSensitive);
  }

  lemma NothingToDo(root: Value, place: Place, keys: iset<string>, caseSensitive: bool)
    requires Tame(root, keys) && Find(Denote(root), place).Some?
    ensures LeadsTo(root, [], Overwrite(Denote(root), place, Find(Denote(root), place).value), keys, caseSensitive)
  {
    OverwriteSame(Denote(root), place);
  }

  lemma {:induction false} RemoveTailWorks(root: Value, place: Place, index: nat, count: nat, keys: iset<string>, caseSensitive: bool)
    requires Tame(root, keys) && ToldApart(keys, caseSensitive)
    requires Find(Denote(root), place).Some? && Find(Denote(root), place).value.DArray?
    requires |Find(Denote(root), place).value.items| == index + count
    ensures LeadsTo(root, RemoveTail(Text(place), index, count),
                    Overwrite(Denote(root), place, DArray(Find(Denote(root), place).value.items[..index])),
                    keys, caseSensitive)
    decreases count, 1
  {
    if count == 0 {
      var items := Find(Denote(root), place).value.items;
      assert items[..index] == items;
      NothingToDo(root, place, keys, caseSensitive);
    } else {
      hide *;
      RemoveOneThenTail(root, place, Find(Denote(root), place).value.items, index, count, keys, caseSensitive);
      TailUnfolds(Text(place), index, count);
    }
  }

  lemma {:induction false} RemoveOneThenTail(root: Value, place: Place, items: seq<Denotation>, index: nat, count: nat,
                                             keys: iset<string>, caseSensitive: bool)
    requires Tame(root, keys) && ToldApart(keys, caseSensitive)
    requires Find(Denote(root), place) == Some(DArray(items))
    requires count > 0 && |items| == index + count
    ensures LeadsTo(root, [MakePatch("remove", Text(place) + "/" + Encode(Decimal(index)), None)]
                          + RemoveTail(Text(place), index, count - 1),
                    Overwrite(Denote(root), place, DArray(items[..index])), keys, caseSensitive)
    decreases count, 0
  {
    var first := [MakePatch("remove", Text(place) + "/" + Encode(Decimal(index)), None)];
    var fewer := Remove(items, index);
    FrontKept(items, index);
    hide Find, Overwrite, ApplyAll, Text, Encode, Decimal, Denote, Tame, ToldApart, RemoveTail, Remove, MakePatch, LeadsTo;
    RemoveItemPatch(root, place, index, keys, caseSensitive);
    var middle := ApplyAll(root, first, caseSensitive).root;
    Led(root, first, Overwrite(Denote(root), place, DArray(fewer)), keys, caseSensitive);
    FindOverwritten(Denote(root), place, DArray(fewer));
    RemoveTailWorks(middle, place, index, count - 1, keys, caseSensitive);
    SamePlace(root, place, first, RemoveTail(Text(place), index, count - 1), DArray(fewer), DArray(items[..index]),
              keys, caseSensitive);
  }

  lemma FrontKept<T>(s: seq<T>, index: nat)
    requires index < |s|
    ensures Remove(s, index)[..index] == s[..index]
  {}

  lemma TailUnfolds(path: string, index: nat, count: nat)
    requires count > 0
    ensures RemoveTail(path, index, count)
         == [MakePatch("remove", path + "/" + Encode(Decimal(index)), None)] + RemoveTail(path, index, count - 1)
  {}

  lemma {:induction false} HeadAppended(items: seq<Denotation>, more: seq<Value>)
    requires more != []
    ensures items + [Denote(more[0])] + DenoteItems(more[1..]) == items + DenoteItems(more)
  {}

  lemma {:induction false} AppendTailWorks(root: Value, place: Place, more: seq<Value>, keys: iset<string>, caseSensitive: bool)
    requires Tame(root, keys) && ToldApart(keys, caseSensitive)
    requires Find(Denote(root), place).Some? && Find(Denote(root), place).value.DArray?
    requires |Find(Denote(root), place).value.items| + |more| < SIZE_LIMIT
    requires forall i :: 0 <= i < |more| ==> Tame(more[i], keys)
    ensures LeadsTo(root, AppendTail(Text(place), more),
                    Overwrite(Denote(root), place, DArray(Find(Denote(root), place).value.items + DenoteItems(more))),
                    keys, caseSensitive)
    decreases |more|
  {
    var items := Find(Denote(root), place).value.items;
    if more == [] {
      assert items + DenoteItems(more) == items;
      NothingToDo(root, place, keys, caseSensitive);
    } else {
      hide Find, Overwrite, ApplyAll, Text, Encode, Denote, Tame;
      var first := [MakePatch("add", Text(place) + "/" + Encode("-"), Some(more[0]))];
      var longer := items + [Denote(more[0])];
      AppendPatch(root, place, more[0], keys, caseSensitive);
      var middle := ApplyAll(root, first, caseSensitive).root;
      FindOverwritten(Denote(root), place, DArray(longer));
      AppendTailWorks(middle, place, more[1..], keys, caseSensitive);
      HeadAppended(items, more);
      SamePlace(root, place, first, AppendTail(Text(place), more[1..]), DArray(longer), DArray(items + DenoteItems(more)),
                keys, caseSensitive);
    }
  }

  /** The patches of a subtree rewrite the place of that subtree, and nothing else. */
  lemma {:induction false} PatchesWork(root: Value, place: Place, from: Value, to: Value, keys: iset<string>, caseSensitive: bool)
    requires Tame(root, keys) && Tame(from, keys) && Tame(to, keys) && Addressable(keys)
    requires Find(Denote(root), place) == Some(Denote(from))
    ensures LeadsTo(root, CreatePatches(Text(place), from, to, caseSensitive),
                    Overwrite(Denote(root), place, Denote(to)), keys, caseSensitive)
    decreases from, 2
  {
    if Kind(from) != Kind(to) {
      ReplacePatch(root, place, to, keys, caseSensitive);
    } else if from.Array? {
      assert Mixed(from, to, 0) == DenoteItems(from.items);
      ItemPatchesWork(root, place, from, to, 0, keys, caseSensitive);
    } else if from.Object? {
      ToldApartAnyway(keys, caseSensitive);
      SortMembers(from.members, caseSensitive);
      SortedIsOrdered(from.members, keys, caseSensitive);
      SortedIsOrdered(to.members, keys, caseSensitive);
      NothingBefore(DenoteMembers(from.members));
      NothingBefore(DenoteMembers(to.members));
      MemberPatchesWork(root, place, from, Sort(from.members, caseSensitive), Sort(to.members, caseSensitive), map[],
                        keys, caseSensitive);
    } else {
      ScalarPatchesWork(root, place, from, to, keys, caseSensitive);
    }
  }

  lemma {:induction false} ScalarPatchesWork(root: Value, place: Place, from: Value, to: Value, keys: iset<string>, caseSensitive: bool)
    requires Tame(root, keys) && Tame(from, keys) && Tame(to, keys) && Addressable(keys)
    requires Find(Denote(root), place) == Some(Denote(from))
    requires Kind(from) == Kind(to) && !from.Array? && !from.Object?
    ensures LeadsTo(root, CreatePatches(Text(place), from, to, caseSensitive),
                    Overwrite(Denote(root), place, Denote(to)), keys, caseSensitive)
  {
    if from.Number? { CompareDoubleIsEquality(from.num, to.num); }
    if Denote(from) == Denote(to) {
      NothingToDo(root, place, keys, caseSensitive);
    } else {
      ReplacePatch(root, place, to, keys, caseSensitive);
    }
  }

  lemma {:induction false} ItemPatchesWork(root: Value, place: Place, from: Value, to: Value, index: nat, keys: iset<string>, caseSensitive: bool)
    requires Tame(root, keys) && Tame(from, keys) && Tame(to, keys) && Addressable(keys)
    requires from.Array? && to.Array? && index <= |from.items| && index <= |to.items|
    requires Find(Denote(root), place) == Some(DArray(Mixed(from, to, index)))
    ensures LeadsTo(root, CreateItemPatches(Text(place), from, to, index, caseSensitive),
                    Overwrite(Denote(root), place, Denote(to)), keys, caseSensitive)
    decreases from, 1, |from.items| - index
  {
    hide Overwrite, Find, LeadsTo, Tame, Addressable, Text, CreatePatches;
    if index < |from.items| && index < |to.items| {
      SharedItem(root, place, from, to, index, keys, caseSensitive);
    } else {
      TailPatchesWork(root, place, from, to, index, keys, caseSensitive);
    }
  }

  /** The items dealt with are those of `to`, the others still those of `from`. */
  ghost function Mixed(from: Value, to: Value, index: nat): seq<Denotation>
    requires from.Array? && to.Array? && index <= |from.items| && index <= |to.items|
  {
    DenoteItems(to.items[..index]) + DenoteItems(from.items[index..])
  }

  lemma {:induction false} MixedAdvances(from: Value, to: Value, index: nat)
    requires from.Array? && to.Array? && index < |from.items| && index < |to.items|
    ensures |Mixed(from, to, index)| == |from.items| && Mixed(from, to, index)[index] == Denote(from.items[index])
    ensures Mixed(from, to, index)[index := Denote(to.items[index])] == Mixed(from, to, index + 1)
  {}

  lemma {:induction false} SharedItem(root: Value, place: Place, from: Value, to: Value, index: nat, keys: iset<string>, caseSensitive: bool)
    requires Tame(root, keys) && Tame(from, keys) && Tame(to, keys) && Addressable(keys)
    requires from.Array? && to.Array? && index < |from.items| && index < |to.items|
    requires Find(Denote(root), place) == Some(DArray(Mixed(from, to, index)))
    ensures LeadsTo(root, CreatePatches(Text(place) + "/" + Decimal(index), from.items[index], to.items[index], caseSensitive)
                          + CreateItemPatches(Text(place), from, to, index + 1, caseSensitive),
                    Overwrite(Denote(root), place, Denote(to)), keys, caseSensitive)
    decreases from, 1, |from.items| - index, 0
  {
    var first := CreatePatches(Text(place) + "/" + Decimal(index), from.items[index], to.items[index], caseSensitive);
    MixedAdvances(from, to, index);
    TokenOfIndex(index);
    IndexSurvives(index);
    TextBelow(place, Decimal(index));
    FindBelow(Denote(root), place, Decimal(index));
    PatchesWork(root, place + [Decimal(index)], from.items[index], to.items[index], keys, caseSensitive);
    OverwriteBelow(Denote(root), place, Decimal(index), Denote(to.items[index]));
    FindOverwritten(Denote(root), place, DArray(Mixed(from, to, index + 1)));
    ItemPatchesWork(ApplyAll(root, first, caseSensitive).root, place, from, to, index + 1, keys, caseSensitive);
    SamePlace(root, place, first, CreateItemPatches(Text(place), from, to, index + 1, caseSensitive),
              DArray(Mixed(from, to, index + 1)), Denote(to), keys, caseSensitive);
  }

  lemma {:induction false} TailAppended(from: Value, to: Value, index: nat)
    requires from.Array? && to.Array? && index <= |from.items| && index <= |to.items|
    ensures Mixed(from, to, index)[..index] + DenoteItems(to.items[index..]) == DenoteItems(to.items)
    ensures |Mixed(from, to, index)| == |from.items|
  {}

  lemma {:induction false} TailPatchesWork(root: Value, place: Place, from: Value, to: Value, index: nat, keys: iset<string>, caseSensitive: bool)
    requires Tame(root, keys) && Tame(from, keys) && Tame(to, keys) && Addressable(keys)
    requires from.Array? && to.Array? && index <= |from.items| && index <= |to.items|
    requires index == |from.items| || index == |to.items|
    requires Find(Denote(root), place) == Some(DArray(Mixed(from, to, index)))
    ensures LeadsTo(root, RemoveTail(Text(place), index, |from.items| - index) + AppendTail(Text(place), to.items[index..]),
                    Overwrite(Denote(root), place, Denote(to)), keys, caseSensitive)
  {
    hide Overwrite, Find, ApplyAll, RemoveTail, AppendTail, Text;
    ToldApartAnyway(keys, caseSensitive);
    var now := Mixed(from, to, index);
    TailAppended(from, to, index);
    var first := RemoveTail(Text(place), index, |from.items| - index);
    RemoveTailWorks(root, place, index, |from.items| - index, keys, caseSensitive);
    var middle := ApplyAll(root, first, caseSensitive).root;
    FindOverwritten(Denote(root), place, DArray(now[..index]));
    AppendTailWorks(middle, place, to.items[index..], keys, caseSensitive);
    SamePlace(root, place, first, AppendTail(Text(place), to.items[index..]), DArray(now[..index]), Denote(to),
              keys, caseSensitive);
  }

  /** No key of the member list is in the map. */
  ghost predicate Apart(members: Members, m: map<string, Denotation>) {
    forall i :: 0 <= i < |members| ==> members[i].key !in m
  }

  /**
   The walk over two sorted member lists. `done` holds what has been dealt with already: its keys lie
   before everything that is left on either side.
   */
  lemma {:induction false} MemberPatchesWork(root: Value, place: Place, whole: Value, from: Members, to: Members,
                                             done: map<string, Denotation>, keys: iset<string>, caseSensitive: bool)
    requires Tame(root, keys) && Addressable(keys) && ToldApart(keys, caseSensitive)
    requires whole.Object? && forall e :: e in from ==> e in whole.members
    requires Ordered(from, keys, caseSensitive) && Ordered(to, keys, caseSensitive)
    requires Apart(from, done) && Apart(to, done)
    requires Find(Denote(root), place) == Some(DObject(done + DenoteMembers(from)))
    ensures LeadsTo(root, CreateMemberPatches(Text(place), whole, from, to, caseSensitive),
                    Overwrite(Denote(root), place, DObject(done + DenoteMembers(to))), keys, caseSensitive)
    decreases whole, 1, |from| + |to|
  {
    if from == [] && to == [] {
      NothingToDo(root, place, keys, caseSensitive);
    } else {
      var diff := if from == [] then 1
                  else if to == [] then -1
                  else CompareStrings(from[0].key, to[0].key, caseSensitive);
      if diff == 0 {
        CompareZero(from[0].key, to[0].key, caseSensitive);
        SharedMember(root, place, whole, from, to, done, keys, caseSensitive);
      } else if diff < 0 {
        DroppedMember(root, place, whole, from, to, done, keys, caseSensitive);
      } else {
        if from != [] { CompareFlips(from[0].key, to[0].key, caseSensitive); }
        NewMember(root, place, whole, from, to, done, keys, caseSensitive);
      }
    }
  }

  lemma NothingBefore<K, V>(m: map<K, V>)
    ensures map[] + m == m
  {}

  /** Setting a key that only the right-hand map has moves it to the left-hand one. */
  lemma MoveAcross<K, V>(done: map<K, V>, rest: map<K, V>, k: K, x: V, y: V)
    requires k !in done && k !in rest
    ensures k in done + rest[k := x] && (done + rest[k := x])[k] == x
    ensures (done + rest[k := x])[k := y] == done[k := y] + rest
    ensures done[k := y] + rest == done + rest[k := y]
    ensures (done + rest)[k := y] == done[k := y] + rest
    ensures (done + rest[k := x]) - {k} == done + rest
  {}

  /** Both sides have the next key: patch the member, then go on. */
  lemma {:induction false} SharedMember(root: Value, place: Place, whole: Value, from: Members, to: Members,
                                        done: map<string, Denotation>, keys: iset<string>, caseSensitive: bool)
    requires Tame(root, keys) && Addressable(keys) && ToldApart(keys, caseSensitive)
    requires whole.Object? && forall e :: e in from ==> e in whole.members
    requires Ordered(from, keys, caseSensitive) && Ordered(to, keys, caseSensitive)
    requires Apart(from, done) && Apart(to, done)
    requires Find(Denote(root), place) == Some(DObject(done + DenoteMembers(from)))
    requires from != [] && to != [] && from[0].key == to[0].key
    ensures LeadsTo(root, CreatePatches(Text(place) + "/" + Encode(from[0].key), from[0].item, to[0].item, caseSensitive)
                          + CreateMemberPatches(Text(place), whole, from[1..], to[1..], caseSensitive),
                    Overwrite(Denote(root), place, DObject(done + DenoteMembers(to))), keys, caseSensitive)
    decreases whole, 1, |from| + |to|, 0
  {
    assert from[0] in whole.members;
    var k, y := from[0].key, Denote(to[0].item);
    DenoteSplitsHead(from, keys, caseSensitive);
    DenoteSplitsHead(to, keys, caseSensitive);
    var done' := done[k := y];
    MoveAcross(done, DenoteMembers(from[1..]), k, Denote(from[0].item), y);
    MoveAcross(done, DenoteMembers(to[1..]), k, y, y);
    assert DenoteMembers(from) == DenoteMembers(from[1..])[k := Denote(from[0].item)];
    assert DenoteMembers(to) == DenoteMembers(to[1..])[k := y];
    TextBelow(place, k);
    FindBelow(Denote(root), place, k);
    PatchesWork(root, place + [k], from[0].item, to[0].item, keys, caseSensitive);
    OverwriteBelow(Denote(root), place, k, y);
    var first := CreatePatches(Text(place + [k]), from[0].item, to[0].item, caseSensitive);
    var x := DObject(done' + DenoteMembers(from[1..]));
    FindOverwritten(Denote(root), place, x);
    MemberPatchesWork(ApplyAll(root, first, caseSensitive).root, place, whole, from[1..], to[1..], done', keys, caseSensitive);
    SamePlace(root, place, first, CreateMemberPatches(Text(place), whole, from[1..], to[1..], caseSensitive),
              x, DObject(done + DenoteMembers(to)), keys, caseSensitive);
  }

  /** Only `from` has the next key: remove it. */
  lemma {:induction false} DroppedMember(root: Value, place: Place, whole: Value, from: Members, to: Members,
                                         done: map<string, Denotation>, keys: iset<string>, caseSensitive: bool)
    requires Tame(root, keys) && Addressable(keys) && ToldApart(keys, caseSensitive)
    requires whole.Object? && forall e :: e in from ==> e in whole.members
    requires Ordered(from, keys, caseSensitive) && Ordered(to, keys, caseSensitive)
    requires Apart(from, done) && Apart(to, done)
    requires Find(Denote(root), place) == Some(DObject(done + DenoteMembers(from)))
    requires from != []
    ensures LeadsTo(root, [MakePatch("remove", Text(place) + "/" + Encode(from[0].key), None)]
                          + CreateMemberPatches(Text(place), whole, from[1..], to, caseSensitive),
                    Overwrite(Denote(root), place, DObject(done + DenoteMembers(to))), keys, caseSensitive)
    decreases whole, 1, |from| + |to|, 0
  {
    var k := from[0].key;
    DenoteSplitsHead(from, keys, caseSensitive);
    MoveAcross(done, DenoteMembers(from[1..]), k, Denote(from[0].item), Denote(from[0].item));
    RemoveMemberPatch(root, place, k, keys, caseSensitive);
    var first := [MakePatch("remove", Text(place) + "/" + Encode(k), None)];
    var x := DObject(done + DenoteMembers(from[1..]));
    FindOverwritten(Denote(root), place, x);
    MemberPatchesWork(ApplyAll(root, first, caseSensitive).root, place, whole, from[1..], to, done, keys, caseSensitive);
    SamePlace(root, place, first, CreateMemberPatches(Text(place), whole, from[1..], to, caseSensitive),
              x, DObject(done + DenoteMembers(to)), keys, caseSensitive);
  }

  /** Only `to` has the next key: add it. */
  lemma {:induction false} NewMember(root: Value, place: Place, whole: Value, from: Members, to: Members,
                                     done: map<string, Denotation>, keys: iset<string>, caseSensitive: bool)
    requires Tame(root, keys) && Addressable(keys) && ToldApart(keys, caseSensitive)
    requires whole.Object? && forall e :: e in from ==> e in whole.members
    requires Ordered(from, keys, caseSensitive) && Ordered(to, keys, caseSensitive)
    requires Apart(from, done) && Apart(to, done)
    requires Find(Denote(root), place) == Some(DObject(done + DenoteMembers(from)))
    requires to != [] && (from != [] ==> CompareKeys(to[0], from[0], caseSensitive) < 0)
    ensures LeadsTo(root, [MakePatch("add", Text(place) + "/" + Encode(to[0].key), Some(to[0].item))]
                          + CreateMemberPatches(Text(place), whole, from, to[1..], caseSensitive),
                    Overwrite(Denote(root), place, DObject(done + DenoteMembers(to))), keys, caseSensitive)
    decreases whole, 1, |from| + |to|, 0
  {
    var k, y := to[0].key, Denote(to[0].item);
    DenoteSplitsHead(to, keys, caseSensitive);
    SmallerHeadMissing(to, from, keys, caseSensitive);
    DenoteMembersKeys(from, k);
    var done' := done[k := y];
    MoveAcross(done, DenoteMembers(to[1..]), k, y, y);
    MoveAcross(done, DenoteMembers(from), k, y, y);
    assert DenoteMembers(to) == DenoteMembers(to[1..])[k := y];
    AddMemberPatch(root, place, k, to[0].item, keys, caseSensitive);
    var first := [MakePatch("add", Text(place) + "/" + Encode(k), Some(to[0].item))];
    var x := DObject(done' + DenoteMembers(from));
    FindOverwritten(Denote(root), place, x);
    MemberPatchesWork(ApplyAll(root, first, caseSensitive).root, place, whole, from, to[1..], done', keys, caseSensitive);
    SamePlace(root, place, first, CreateMemberPatches(Text(place), whole, from, to[1..], caseSensitive),
              x, DObject(done + DenoteMembers(to)), keys, caseSensitive);
  }

  /**
   Diff, then apply: on any tree equal to `from` up to member order, the patch generated from `from`
   and `to` succeeds and leaves a tree equal to `to` up to member order.
   */
  lemma DiffThenApply(start: Value, from: Value, to: Value, keys: iset<string>, caseSensitive: bool)
    requires Tame(start, keys) && Tame(from, keys) && Tame(to, keys) && Addressable(keys)
    requires Denote(start) == Denote(from)
    ensures var r := ApplyPatches(start, GeneratePatches(from, to, caseSensitive), caseSensitive);
            r.status == 0 && Tame(r.root, keys) && Denote(r.root) == Denote(to)
  {
    PatchesWork(start, [], from, to, keys, caseSensitive);
  }
}

/**
 The operations of a patch that a generated patch never uses: `test`, `copy` and `move`; and what is
 left of the document when an operation fails. `TestThenAdd` says what a `test` does to an `add` behind it.
 */
module PatchOps {
  import opened CString
  import opened Compare
  import opened Diff
  import opened Digits
  import opened Json
  import opened Patch
  import opened PatchEffects
  import opened Places
  import opened Pointer
  import opened Visits

  /** An operation with a source: `copy` or `move`. */
  function Transfer(operation: string, source: string, path: string): Value {
    Object([Entry("op", String(operation)), Entry("from", String(source)), Entry("path", String(path))])
  }

  lemma FromDiffers(caseSensitive: bool)
    ensures CompareStrings("from", "op", caseSensitive) != 0
    ensures CompareStrings("path", "from", caseSensitive) != 0
    ensures CompareStrings("value", "from", caseSensitive) != 0
    ensures CompareStrings("from", "from", caseSensitive) == 0
  {
    CompareZero("from", "from", caseSensitive);
    assert "from"[0] == 'f' && "op"[0] == 'o' && "path"[0] == 'p' && "value"[0] == 'v';
  }

  lemma ReadsTransfer(operation: string, source: string, path: string, caseSensitive: bool)
    ensures var p := Transfer(operation, source, path);
            && GetObjectItem(p, "op", caseSensitive) == Some(String(operation))
            && GetObjectItem(p, "from", caseSensitive) == Some(String(source))
            && GetObjectItem(p, "path", caseSensitive) == Some(String(path))
  {
    var p := Transfer(operation, source, path);
    PatchNamesDiffer(caseSensitive);
    FromDiffers(caseSensitive);
    assert p.members[0].key == "op" && p.members[1].key == "from" && p.members[2].key == "path";
    assert IndexOf(p.members, "op", caseSensitive) == 0;
    assert IndexOf(p.members, "from", caseSensitive) == 1;
    assert IndexOf(p.members, "path", caseSensitive) == 2;
  }

  lemma OperationNames()
    ensures "copy"[0] == 'c' && "move"[0] == 'm' && "test"[0] == 't' && "replace"[0] == 'r'
    ensures "add"[0] == 'a' && "remove"[0] == 'r' && |"remove"| != |"replace"|
  {}

  // ---- test ---------------------------------------------------------------------------------

  lemma ReadsTest(root: Value, path: string, w: Value, caseSensitive: bool)
    requires GetItem(root, path, caseSensitive).Some?
    ensures ApplyPatch(root, MakePatch("test", path, Some(w)), caseSensitive)
         == TestAt(root, GetItem(root, path, caseSensitive).value, w, caseSensitive)
  {
    ReadsOperation("test", path, Some(w), caseSensitive);
    OperationNames();
    hide CompareJson, GetItem, GetObjectItem, At, MakePatch;
    assert DecodeOperation(MakePatch("test", path, Some(w)), caseSensitive) == Test;
  }

  /**
   `test` succeeds exactly when the place holds an equal value. Either way it may sort objects, but the
   document keeps its meaning.
   */
  lemma TestDecides(root: Value, place: Place, w: Value, keys: iset<string>, caseSensitive: bool)
    requires Tame(root, keys) && Tame(w, keys) && ToldApart(keys, caseSensitive)
    requires Find(Denote(root), place).Some?
    ensures var r := ApplyPatch(root, MakePatch("test", Text(place), Some(w)), caseSensitive);
            && r.status == (if Find(Denote(root), place).value == Denote(w) then 0 else 1)
            && Tame(r.root, keys) && Denote(r.root) == Denote(root)
  {
    Resolves(root, place, keys, caseSensitive);
    var a := GetItem(root, Text(place), caseSensitive).value;
    var node := At(root, a);
    TameIsDistinct(node, keys);
    hide CompareJson, GetItem, Find, Denote, Tame, Text, At, ApplyPatch, Visited, Put, Distinct, Overwrite;
    CompareJsonDecides(node, w, keys, caseSensitive);
    ReadsTest(root, Text(place), w, caseSensitive);
    VisitedTame(node, w, keys, caseSensitive);
    VisitedMeans(node, w, caseSensitive);
    PutResolves(root, place, Visited(node, w, caseSensitive), keys, caseSensitive);
    OverwriteSame(Denote(root), place);
  }

  lemma {:induction false} TameIsDistinct(v: Value, keys: iset<string>)
    requires Tame(v, keys)
    ensures Distinct(v)
  {
    match v
    case Array(items) =>
      forall i | 0 <= i < |items| ensures Distinct(items[i]) { TameIsDistinct(items[i], keys); }
    case Object(members) =>
      forall i | 0 <= i < |members| ensures Distinct(members[i].item) { TameIsDistinct(members[i].item, keys); }
    case _ =>
  }

  // ---- Places for one child -----------------------------------------------------------------

  /** The last token of a path: a member, an item, or the end of an array. */
  datatype Spot = Member(key: string) | Item(index: nat) | End

  function Token(step: Spot): string {
    match step
    case Member(key) => key
    case Item(index) => Decimal(index)
    case End => "-"
  }

  /** The child is there. */
  predicate Holds(container: Denotation, step: Spot) {
    match step
    case Member(key) => container.DObject? && key in container.members
    case Item(index) => container.DArray? && index < |container.items|
    case End => false
  }

  function Held(container: Denotation, step: Spot): Denotation
    requires Holds(container, step)
  {
    if step.Member? then container.members[step.key] else container.items[step.index]
  }

  function TakenFrom(container: Denotation, step: Spot): Denotation
    requires Holds(container, step)
  {
    if step.Member? then DObject(container.members - {step.key}) else DArray(Remove(container.items, step.index))
  }

  /** A child can be put there. */
  predicate Accepts(container: Denotation, step: Spot) {
    match step
    case Member(_) => container.DObject?
    case Item(index) => container.DArray? && index <= |container.items| < SIZE_LIMIT - 1
    case End => container.DArray? && |container.items| < SIZE_LIMIT - 1
  }

  function PutInto(container: Denotation, step: Spot, w: Denotation): Denotation
    requires Accepts(container, step)
  {
    match step
    case Member(key) => DObject(container.members[key := w])
    case Item(index) => DArray(Insert(container.items, index, w))
    case End => DArray(container.items + [w])
  }

  lemma Detaches(root: Value, place: Place, step: Spot, keys: iset<string>, caseSensitive: bool)
    requires Tame(root, keys) && Addressable(keys)
    requires Find(Denote(root), place).Some? && Holds(Find(Denote(root), place).value, step)
    ensures var d := DetachPath(root, Text(place + [Token(step)]), caseSensitive);
            var container := Find(Denote(root), place).value;
            && d.Detached? && Tame(d.root, keys) && Tame(d.item, keys)
            && Denote(d.item) == Held(container, step)
            && Denote(d.root) == Overwrite(Denote(root), place, TakenFrom(container, step))
  {
    hide Find, Denote, Tame, Text, Overwrite, DetachPath, ToldApart;
    if step.Member? {
      DetachesMember(root, place, step.key, keys, caseSensitive);
      DetachedMeaning(root, place, step.key, keys, caseSensitive);
    } else {
      ToldApartAnyway(keys, caseSensitive);
      DetachesItem(root, place, step.index, keys, caseSensitive);
      DetachedItemMeaning(root, place, step.index, keys, caseSensitive);
    }
  }

  lemma Adds(root: Value, place: Place, step: Spot, w: Value, keys: iset<string>, caseSensitive: bool)
    requires Tame(root, keys) && Addressable(keys) && Tame(w, keys) && (step.Member? ==> step.key in keys)
    requires Find(Denote(root), place).Some? && Accepts(Find(Denote(root), place).value, step)
    ensures var r := AddAt(root, Text(place + [Token(step)]), w, caseSensitive);
            && r.status == 0 && Tame(r.root, keys)
            && Denote(r.root) ==
                 Overwrite(Denote(root), place, PutInto(Find(Denote(root), place).value, step, Denote(w)))
  {
    hide Find, Denote, Tame, Text, Overwrite, AddAt, ToldApart;
    ToldApartAnyway(keys, caseSensitive);
    match step
    case Member(key) => AddsMember(root, place, key, w, keys, caseSensitive);
    case Item(index) => InsertsItem(root, place, index, w, keys, caseSensitive);
    case End => AppendsItem(root, place, w, keys, caseSensitive);
  }

  // ---- copy ---------------------------------------------------------------------------------

  lemma ReadsCopy(root: Value, source: string, path: string, caseSensitive: bool)
    requires GetItem(root, source, caseSensitive).Some?
    ensures ApplyPatch(root, Transfer("copy", source, path), caseSensitive)
         == AddAt(root, path, At(root, GetItem(root, source, caseSensitive).value), caseSensitive)
  {
    ReadsTransfer("copy", source, path, caseSensitive);
    OperationNames();
    hide GetItem, GetObjectItem, AddAt, At, Transfer;
    assert DecodeOperation(Transfer("copy", source, path), caseSensitive) == Copy;
  }

  /** `copy` puts what the source place holds into a member, in front of an item or at an end, and changes nothing else. */
  lemma Copies(root: Value, source: Place, place: Place, step: Spot, keys: iset<string>, caseSensitive: bool)
    requires Tame(root, keys) && Addressable(keys) && (step.Member? ==> step.key in keys)
    requires Find(Denote(root), source).Some?
    requires Find(Denote(root), place).Some? && Accepts(Find(Denote(root), place).value, step)
    ensures var r := ApplyPatch(root, Transfer("copy", Text(source), Text(place + [Token(step)])), caseSensitive);
            && r.status == 0 && Tame(r.root, keys)
            && Denote(r.root) == Overwrite(Denote(root), place,
                 PutInto(Find(Denote(root), place).value, step, Find(Denote(root), source).value))
  {
    ToldApartAnyway(keys, caseSensitive);
    Resolves(root, source, keys, caseSensitive);
    var w := At(root, GetItem(root, Text(source), caseSensitive).value);
    hide Find, Denote, Tame, Text, At, Overwrite, AddAt, ApplyPatch, GetItem, Addressable, ToldApart, Accepts, PutInto;
    ReadsCopy(root, Text(source), Text(place + [Token(step)]), caseSensitive);
    Adds(root, place, step, w, keys, caseSensitive);
  }

  /** `copy` to a member sets it to what the source place holds, and changes nothing else. */
  lemma CopiesToMember(root: Value, source: Place, place: Place, k: string, keys: iset<string>, caseSensitive: bool)
    requires Tame(root, keys) && Addressable(keys) && k in keys
    requires Find(Denote(root), source).Some?
    requires Find(Denote(root), place).Some? && Find(Denote(root), place).value.DObject?
    ensures var r := ApplyPatch(root, Transfer("copy", Text(source), Text(place + [k])), caseSensitive);
            && r.status == 0 && Tame(r.root, keys)
            && Denote(r.root) == Overwrite(Denote(root), place,
                 DObject(Find(Denote(root), place).value.members[k := Find(Denote(root), source).value]))
  {
    hide Find, Denote, Tame, Text, Overwrite, ApplyPatch, Addressable;
    Copies(root, source, place, Member(k), keys, caseSensitive);
  }

  // ---- move ---------------------------------------------------------------------------------

  lemma ReadsMove(root: Value, source: string, path: string, caseSensitive: bool)
    requires DetachPath(root, source, caseSensitive).Detached?
    ensures var d := DetachPath(root, source, caseSensitive);
            ApplyPatch(root, Transfer("move", source, path), caseSensitive) == AddAt(d.root, path, d.item, caseSensitive)
  {
    ReadsTransfer("move", source, path, caseSensitive);
    OperationNames();
    hide DetachPath, GetObjectItem, AddAt, Transfer;
    assert DecodeOperation(Transfer("move", source, path), caseSensitive) == Move;
  }

  /** What detaching a member hands out is what the place held. */
  lemma DetachedMeaning(root: Value, place: Place, k: string, keys: iset<string>, caseSensitive: bool)
    requires Tame(root, keys) && Addressable(keys)
    requires Find(Denote(root), place).Some? && Find(Denote(root), place).value.DObject?
    requires k in Find(Denote(root), place).value.members
    ensures var d := DetachPath(root, Text(place + [k]), caseSensitive);
            d.Detached? && Tame(d.item, keys) && Denote(d.item) == Find(Denote(root), place).value.members[k]
  {
    ToldApartAnyway(keys, caseSensitive);
    PathParts(place, k);
    Resolves(root, place, keys, caseSensitive);
    var a := GetItem(root, Text(place), caseSensitive).value;
    var parent := At(root, a);
    ObjectOf(parent, Find(Denote(root), place).value);
    TameObject(parent, keys);
    MemberRemoved(parent.members, k, keys);
    assert SurvivesDecoding(k);
    LookupIsMapAmong(parent.members, k, false, keys);
    hide Find, Put, GetItem, SplitLast, Encode, DecodeInPlace, Text, Addressable, ToldApart, DenoteMembers, Overwrite;
  }

  lemma DetachedItemMeaning(root: Value, place: Place, i: nat, keys: iset<string>, caseSensitive: bool)
    requires Tame(root, keys) && ToldApart(keys, caseSensitive)
    requires Find(Denote(root), place).Some? && Find(Denote(root), place).value.DArray?
    requires i < |Find(Denote(root), place).value.items|
    ensures var d := DetachPath(root, Text(place + [Decimal(i)]), caseSensitive);
            d.Detached? && Tame(d.item, keys) && Denote(d.item) == Find(Denote(root), place).value.items[i]
  {
    hide Put, Overwrite, Find, IsNode, Encode, DecodeFrom, DecodeInPlace, SplitLast, GetItem, ToldApart, DecodeIndex, Decimal;
    PathParts(place, Decimal(i));
    Resolves(root, place, keys, caseSensitive);
    var parent := At(root, GetItem(root, Text(place), caseSensitive).value);
    IndexSurvives(i);
    IndexDecodes(i);
    assert DetachChild(parent, DecodeInPlace(Encode(Decimal(i)))) == Some(i);
  }

  /** `move`: the source place loses the child, then the destination in what is left gets it with the same value. */
  lemma Moves(root: Value, source: Place, from: Spot, place: Place, step: Spot, keys: iset<string>, caseSensitive: bool)
    requires Tame(root, keys) && Addressable(keys) && (step.Member? ==> step.key in keys)
    requires Find(Denote(root), source).Some? && Holds(Find(Denote(root), source).value, from)
    requires var without := Overwrite(Denote(root), source, TakenFrom(Find(Denote(root), source).value, from));
             Find(without, place).Some? && Accepts(Find(without, place).value, step)
    ensures var container := Find(Denote(root), source).value;
            var without := Overwrite(Denote(root), source, TakenFrom(container, from));
            var r := ApplyPatch(root, Transfer("move", Text(source + [Token(from)]), Text(place + [Token(step)])), caseSensitive);
            && r.status == 0 && Tame(r.root, keys)
            && Denote(r.root) == Overwrite(without, place, PutInto(Find(without, place).value, step, Held(container, from)))
  {
    hide Find, Denote, Tame, Text, At, Overwrite, AddAt, ApplyPatch, DetachPath, Addressable, ToldApart, Accepts, PutInto,
      Holds, Held, TakenFrom, Token;
    Detaches(root, source, from, keys, caseSensitive);
    var d := DetachPath(root, Text(source + [Token(from)]), caseSensitive);
    ReadsMove(root, Text(source + [Token(from)]), Text(place + [Token(step)]), caseSensitive);
    Adds(d.root, place, step, d.item, keys, caseSensitive);
  }

  /** `move` between members: one place loses the key, then the other gets it with the same value. */
  lemma MovesMember(root: Value, source: Place, j: string, place: Place, k: string, keys: iset<string>, caseSensitive: bool)
    requires Tame(root, keys) && Addressable(keys) && k in keys
    requires Find(Denote(root), source).Some? && Find(Denote(root), source).value.DObject?
    requires j in Find(Denote(root), source).value.members
    requires var without := Overwrite(Denote(root), source, DObject(Find(Denote(root), source).value.members - {j}));
             Find(without, place).Some? && Find(without, place).value.DObject?
    ensures var m := Find(Denote(root), source).value.members;
            var without := Overwrite(Denote(root), source, DObject(m - {j}));
            var r := ApplyPatch(root, Transfer("move", Text(source + [j]), Text(place + [k])), caseSensitive);
            && r.status == 0 && Tame(r.root, keys)
            && Denote(r.root) == Overwrite(without, place, DObject(Find(without, place).value.members[k := m[j]]))
  {
    hide Find, Denote, Tame, Text, Overwrite, ApplyPatch, Addressable;
    Moves(root, source, Member(j), place, Member(k), keys, caseSensitive);
  }

  /** Renaming a member by `move`, to a name that is free. */
  lemma Renames(root: Value, place: Place, j: string, k: string, keys: iset<string>, caseSensitive: bool)
    requires Tame(root, keys) && Addressable(keys) && k in keys
    requires Find(Denote(root), place).Some? && Find(Denote(root), place).value.DObject?
    requires j in Find(Denote(root), place).value.members
    ensures var m := Find(Denote(root), place).value.members;
            var r := ApplyPatch(root, Transfer("move", Text(place + [j]), Text(place + [k])), caseSensitive);
            && r.status == 0 && Tame(r.root, keys)
            && Denote(r.root) == Overwrite(Denote(root), place, DObject((m - {j})[k := m[j]]))
  {
    var d := Denote(root);
    var m := Find(d, place).value.members;
    var less := DObject(m - {j});
    FindOverwritten(d, place, less);
    hide Find, Tame, Text, Overwrite, ApplyPatch, Addressable;
    MovesMember(root, place, j, place, k, keys, caseSensitive);
    OverwriteTwice(d, place, less, DObject((m - {j})[k := m[j]]));
  }

  lemma ThereAndBack<K, V>(m: map<K, V>, j: K, k: K)
    requires j in m && k !in m
    ensures var n := (m - {j})[k := m[j]]; k in n && n[k] == m[j] && (n - {k})[j := n[k]] == m
  {}

  /** Renaming a member to a free name and back restores the document up to member order. */
  lemma RenameBack(root: Value, place: Place, j: string, k: string, keys: iset<string>, caseSensitive: bool)
    requires Tame(root, keys) && Addressable(keys) && j in keys && k in keys
    requires Find(Denote(root), place).Some? && Find(Denote(root), place).value.DObject?
    requires j in Find(Denote(root), place).value.members && k !in Find(Denote(root), place).value.members
    ensures var there := Transfer("move", Text(place + [j]), Text(place + [k]));
            var back := Transfer("move", Text(place + [k]), Text(place + [j]));
            var r := ApplyAll(root, [there] + [back], caseSensitive);
            r.status == 0 && Denote(r.root) == Denote(root)
  {
    var d := Denote(root);
    var m := Find(d, place).value.members;
    var n := (m - {j})[k := m[j]];
    var there := Transfer("move", Text(place + [j]), Text(place + [k]));
    var back := Transfer("move", Text(place + [k]), Text(place + [j]));
    ThereAndBack(m, j, k);
    FindOverwritten(d, place, DObject(n));
    OverwriteSame(d, place);
    hide Find, Tame, Text, Overwrite, ApplyPatch, Addressable, Transfer, ApplyAll;
    Renames(root, place, j, k, keys, caseSensitive);
    var middle := ApplyPatch(root, there, caseSensitive).root;
    Renames(middle, place, k, j, keys, caseSensitive);
    OverwriteTwice(d, place, DObject(n), DObject(m));
    ApplyAllConcat(root, [there], [back], caseSensitive);
    OnePatch(root, there, caseSensitive);
    OnePatch(middle, back, caseSensitive);
  }

  // ---- Failing halfway ----------------------------------------------------------------------

  lemma {:induction false} PutChanges(v: Value, a: Address, w: Value)
    requires IsNode(v, a) && w != At(v, a)
    ensures Put(v, a, w) != v
    decreases |a|
  {
    if a == [] {
      assert Put(v, a, w) == w;
    } else {
      var below := Put(Child(v, a[0]), a[1..], w);
      PutChanges(Child(v, a[0]), a[1..], w);
      assert Child(PutChild(v, a[0], below), a[0]) == below;
    }
  }

  /** Taking something out always leaves another document. */
  lemma DetachingChanges(root: Value, path: string, caseSensitive: bool)
    requires DetachPath(root, path, caseSensitive).Detached?
    ensures DetachPath(root, path, caseSensitive).root != root
  {
    var split := SplitLast(path);
    var a := GetItem(root, split.parent, caseSensitive).value;
    var i := DetachChild(At(root, a), DecodeInPlace(split.child)).value;
    assert ChildCount(WithoutChild(At(root, a), i)) == ChildCount(At(root, a)) - 1;
    PutChanges(root, a, WithoutChild(At(root, a), i));
  }

  lemma FailingAddLeaves(root: Value, path: string, value: Value, caseSensitive: bool)
    requires AddAt(root, path, value, caseSensitive).status != 0
    ensures AddAt(root, path, value, caseSensitive).root == root
  {}

  /**
   The operations that first take something out: a `replace` below the root and a `move`, when there
   is something at the path to take out.
   */
  predicate TakesOutFirst(root: Value, patch: Value, caseSensitive: bool) {
    match GetObjectItem(patch, "path", caseSensitive)
    case Some(String(path)) =>
      (match DecodeOperation(patch, caseSensitive)
       case Replace => path != "" && DetachPath(root, path, caseSensitive).Detached?
       case Move =>
         (match GetObjectItem(patch, "from", caseSensitive)
          case Some(String(from)) => DetachPath(root, from, caseSensitive).Detached?
          case _ => false)
       case _ => false)
    case _ => false
  }

  /** A `test` that looks at a node and reaches an object below it whose members are not sorted. */
  predicate TestReorders(root: Value, patch: Value, caseSensitive: bool) {
    match GetObjectItem(patch, "path", caseSensitive)
    case Some(String(path)) =>
      var item, value := GetItem(root, path, caseSensitive), GetObjectItem(patch, "value", caseSensitive);
      && DecodeOperation(patch, caseSensitive) == Test && item.Some? && value.Some?
      && Reorders(At(root, item.value), value.value, caseSensitive)
    case _ => false
  }

  /**
   An operation that fails changes the document only when it takes something out first, or is a `test`
   that reaches an unsorted object; and it does change it then, when keys are distinct.
   */
  lemma FailureChangesExactly(root: Value, patch: Value, caseSensitive: bool)
    requires ApplyPatch(root, patch, caseSensitive).status != 0
    ensures var changes := ApplyPatch(root, patch, caseSensitive).root != root;
            var guard := TakesOutFirst(root, patch, caseSensitive) || TestReorders(root, patch, caseSensitive);
            && (changes ==> guard)
            && (TakesOutFirst(root, patch, caseSensitive) ==> changes)
            && (Distinct(root) ==> (changes <==> guard))
  {
    var pathItem := GetObjectItem(patch, "path", caseSensitive);
    if pathItem.Some? && pathItem.value.String? {
      StringPathFails(root, patch, pathItem.value.text, caseSensitive);
    }
  }

  lemma StringPathFails(root: Value, patch: Value, path: string, caseSensitive: bool)
    requires GetObjectItem(patch, "path", caseSensitive) == Some(String(path))
    requires ApplyPatch(root, patch, caseSensitive).status != 0
    ensures var changes := ApplyPatch(root, patch, caseSensitive).root != root;
            var guard := TakesOutFirst(root, patch, caseSensitive) || TestReorders(root, patch, caseSensitive);
            && (changes ==> guard)
            && (TakesOutFirst(root, patch, caseSensitive) ==> changes)
            && (Distinct(root) ==> (changes <==> guard))
  {
    var operation := DecodeOperation(patch, caseSensitive);
    NoTest(root, patch, caseSensitive);
    if operation == Operation.Replace {
      ReplaceFails(root, patch, path, caseSensitive);
    } else if operation == Move {
      MoveFails(root, patch, path, caseSensitive);
    } else if operation == Test {
      TestFails(root, patch, path, caseSensitive);
    } else {
      OthersFail(root, patch, path, caseSensitive);
    }
  }

  lemma NoTest(root: Value, patch: Value, caseSensitive: bool)
    ensures TestReorders(root, patch, caseSensitive) ==> DecodeOperation(patch, caseSensitive) == Test
    ensures TakesOutFirst(root, patch, caseSensitive) ==> DecodeOperation(patch, caseSensitive) != Test
  {}

  lemma {:induction false} PutSame(v: Value, a: Address)
    requires IsNode(v, a)
    ensures Put(v, a, At(v, a)) == v
    decreases |a|
  {
    if a != [] { PutSame(Child(v, a[0]), a[1..]); }
  }

  lemma {:induction false} DistinctAt(v: Value, a: Address)
    requires IsNode(v, a) && Distinct(v)
    ensures Distinct(At(v, a))
    decreases |a|
  {
    if a != [] { DistinctAt(Child(v, a[0]), a[1..]); }
  }

  lemma TestApplied(root: Value, patch: Value, path: string, caseSensitive: bool)
    requires GetObjectItem(patch, "path", caseSensitive) == Some(String(path))
    requires DecodeOperation(patch, caseSensitive) == Test
    ensures var item, value := GetItem(root, path, caseSensitive), GetObjectItem(patch, "value", caseSensitive);
            ApplyPatch(root, patch, caseSensitive) ==
              if item.None? || value.None? then Patched(root, 1) else TestAt(root, item.value, value.value, caseSensitive)
  {
    hide GetItem, GetObjectItem, DecodeOperation, TestAt;
  }

  lemma TestReordersIs(root: Value, patch: Value, path: string, caseSensitive: bool)
    requires GetObjectItem(patch, "path", caseSensitive) == Some(String(path))
    requires DecodeOperation(patch, caseSensitive) == Test
    ensures var item, value := GetItem(root, path, caseSensitive), GetObjectItem(patch, "value", caseSensitive);
            TestReorders(root, patch, caseSensitive) <==>
              item.Some? && value.Some? && Reorders(At(root, item.value), value.value, caseSensitive)
  {
    hide GetItem, GetObjectItem, DecodeOperation, At, Reorders;
  }

  lemma TestedNode(root: Value, a: Address, value: Value, caseSensitive: bool)
    requires IsNode(root, a)
    ensures var r := Put(root, a, Visited(At(root, a), value, caseSensitive));
            && (r != root ==> Reorders(At(root, a), value, caseSensitive))
            && (Distinct(root) ==> Denote(r) == Denote(root))
            && (Distinct(root) && Reorders(At(root, a), value, caseSensitive) ==> r != root)
  {
    hide Distinct, Put, At, IsNode, Visited, Reorders, Denote;
    var node := At(root, a);
    if !Reorders(node, value, caseSensitive) {
      VisitedStays(node, value, caseSensitive);
      PutSame(root, a);
    } else if Distinct(root) {
      DistinctAt(root, a);
      VisitedChanges(node, value, caseSensitive);
      PutChanges(root, a, Visited(node, value, caseSensitive));
      VisitedMeans(node, value, caseSensitive);
      PutMeans(root, a, Visited(node, value, caseSensitive));
    }
  }

  /** What a `test` does, whether it succeeds or not. */
  lemma TestFails(root: Value, patch: Value, path: string, caseSensitive: bool)
    requires GetObjectItem(patch, "path", caseSensitive) == Some(String(path))
    requires DecodeOperation(patch, caseSensitive) == Test
    ensures ApplyPatch(root, patch, caseSensitive).root != root ==> TestReorders(root, patch, caseSensitive)
    ensures Distinct(root) && TestReorders(root, patch, caseSensitive) ==> ApplyPatch(root, patch, caseSensitive).root != root
    ensures Distinct(root) ==> Denote(ApplyPatch(root, patch, caseSensitive).root) == Denote(root)
  {
    var item, value := GetItem(root, path, caseSensitive), GetObjectItem(patch, "value", caseSensitive);
    TestApplied(root, patch, path, caseSensitive);
    TestReordersIs(root, patch, path, caseSensitive);
    hide ApplyPatch, TestReorders, GetItem, GetObjectItem, DecodeOperation, Distinct, Put, At, IsNode, Visited, CompareJson,
      Reorders, Denote;
    if item.Some? && value.Some? { TestedNode(root, item.value, value.value, caseSensitive); }
  }

  // ---- ... and changing what it means -------------------------------------------------------

  /** A node overwritten by another changes the meaning of the document exactly when the two differ in meaning. */
  lemma {:induction false} PutMeans(v: Value, a: Address, w: Value)
    requires IsNode(v, a) && Distinct(v)
    ensures Denote(Put(v, a, w)) == Denote(v) <==> Denote(w) == Denote(At(v, a))
    decreases |a|
  {
    if a != [] {
      var below := Put(Child(v, a[0]), a[1..], w);
      PutMeans(Child(v, a[0]), a[1..], w);
      PutChildMeans(v, a[0], below);
    }
  }

  lemma PutChildMeans(v: Value, i: nat, w: Value)
    requires i < ChildCount(v) && Distinct(v)
    ensures Denote(PutChild(v, i, w)) == Denote(v) <==> Denote(w) == Denote(Child(v, i))
  {
    match v
    case Array(items) =>
      var d, e := DenoteItems(items), DenoteItems(items[i := w]);
      assert forall j :: 0 <= j < |items| && j != i ==> e[j] == d[j];
      assert e[i] == Denote(w) && d[i] == Denote(items[i]);
    case Object(members) =>
      DenoteUpdate(members, i, w);
      DenoteMembersAll(members);
      var m := DenoteMembers(members);
      assert m[members[i].key] == Denote(members[i].item);
      assert m[members[i].key := Denote(members[i].item)] == m;
  }

  /** Taking something out changes the meaning. */
  lemma DetachingMeans(root: Value, path: string, caseSensitive: bool)
    requires Distinct(root) && DetachPath(root, path, caseSensitive).Detached?
    ensures Denote(DetachPath(root, path, caseSensitive).root) != Denote(root)
  {
    var split := SplitLast(path);
    var a := GetItem(root, split.parent, caseSensitive).value;
    var parent := At(root, a);
    var i := DetachChild(parent, DecodeInPlace(split.child)).value;
    DistinctAt(root, a);
    OneLess(parent, i);
    PutMeans(root, a, WithoutChild(parent, i));
  }

  lemma OneLess(v: Value, i: nat)
    requires i < ChildCount(v) && Distinct(v)
    ensures Denote(WithoutChild(v, i)) != Denote(v)
  {
    match v
    case Array(items) => assert |DenoteItems(Remove(items, i))| != |DenoteItems(items)|;
    case Object(members) =>
      DenoteRemove(members, i);
      DenoteMembersAll(members);
      assert members[i].key in DenoteMembers(members);
  }

  /** With distinct keys, an operation that fails changes the meaning exactly when it takes something out first. */
  lemma FailureMeansExactly(root: Value, patch: Value, caseSensitive: bool)
    requires Distinct(root) && ApplyPatch(root, patch, caseSensitive).status != 0
    ensures Denote(ApplyPatch(root, patch, caseSensitive).root) != Denote(root) <==> TakesOutFirst(root, patch, caseSensitive)
  {
    var pathItem := GetObjectItem(patch, "path", caseSensitive);
    FailureChangesExactly(root, patch, caseSensitive);
    if TakesOutFirst(root, patch, caseSensitive) {
      var path := LeavesDetached(root, patch, pathItem.value.text, caseSensitive);
      DetachingMeans(root, path, caseSensitive);
    } else if TestReorders(root, patch, caseSensitive) {
      NoTest(root, patch, caseSensitive);
      TestFails(root, patch, pathItem.value.text, caseSensitive);
    }
  }

  /** What a failing operation leaves that has taken something out: the document without it. */
  lemma LeavesDetached(root: Value, patch: Value, path: string, caseSensitive: bool) returns (source: string)
    requires GetObjectItem(patch, "path", caseSensitive) == Some(String(path))
    requires ApplyPatch(root, patch, caseSensitive).status != 0 && TakesOutFirst(root, patch, caseSensitive)
    ensures DetachPath(root, source, caseSensitive).Detached?
    ensures ApplyPatch(root, patch, caseSensitive).root == DetachPath(root, source, caseSensitive).root
  {
    var value, from := GetObjectItem(patch, "value", caseSensitive), GetObjectItem(patch, "from", caseSensitive);
    hide DetachPath, AddAt, GetObjectItem, DecodeOperation;
    if DecodeOperation(patch, caseSensitive) == Move {
      source := from.value.text;
      FailingAddLeaves(DetachPath(root, source, caseSensitive).root, path, DetachPath(root, source, caseSensitive).item, caseSensitive);
    } else {
      source := path;
      if value.Some? { FailingAddLeaves(DetachPath(root, source, caseSensitive).root, path, value.value, caseSensitive); }
    }
  }

  lemma ReplaceFails(root: Value, patch: Value, path: string, caseSensitive: bool)
    requires GetObjectItem(patch, "path", caseSensitive) == Some(String(path))
    requires DecodeOperation(patch, caseSensitive) == Operation.Replace
    requires ApplyPatch(root, patch, caseSensitive).status != 0
    ensures ApplyPatch(root, patch, caseSensitive).root != root <==> TakesOutFirst(root, patch, caseSensitive)
  {
    var value, d := GetObjectItem(patch, "value", caseSensitive), DetachPath(root, path, caseSensitive);
    hide DetachPath, AddAt, GetObjectItem, DecodeOperation;
    if path != "" && d.Detached? {
      DetachingChanges(root, path, caseSensitive);
      if value.Some? && AddAt(d.root, path, value.value, caseSensitive).status != 0 {
        FailingAddLeaves(d.root, path, value.value, caseSensitive);
      }
    }
  }

  lemma MoveFails(root: Value, patch: Value, path: string, caseSensitive: bool)
    requires GetObjectItem(patch, "path", caseSensitive) == Some(String(path))
    requires DecodeOperation(patch, caseSensitive) == Move
    requires ApplyPatch(root, patch, caseSensitive).status != 0
    ensures ApplyPatch(root, patch, caseSensitive).root != root <==> TakesOutFirst(root, patch, caseSensitive)
  {
    var source := GetObjectItem(patch, "from", caseSensitive);
    hide DetachPath, AddAt, GetObjectItem, DecodeOperation;
    if source.Some? && source.value.String? && DetachPath(root, source.value.text, caseSensitive).Detached? {
      var d := DetachPath(root, source.value.text, caseSensitive);
      DetachingChanges(root, source.value.text, caseSensitive);
      FailingAddLeaves(d.root, path, d.item, caseSensitive);
    }
  }

  lemma OthersFail(root: Value, patch: Value, path: string, caseSensitive: bool)
    requires GetObjectItem(patch, "path", caseSensitive) == Some(String(path))
    requires DecodeOperation(patch, caseSensitive) !in {Operation.Replace, Move, Test}
    requires ApplyPatch(root, patch, caseSensitive).status != 0
    ensures ApplyPatch(root, patch, caseSensitive).root == root && !TakesOutFirst(root, patch, caseSensitive)
  {
    var value, source := GetObjectItem(patch, "value", caseSensitive), GetObjectItem(patch, "from", caseSensitive);
    hide DetachPath, AddAt, GetItem, GetObjectItem, CompareJson, DecodeOperation, At;
    match DecodeOperation(patch, caseSensitive)
    case Add =>
      if value.Some? && path != "" { FailingAddLeaves(root, path, value.value, caseSensitive); }
    case Copy =>
      if source.Some? && source.value.String? && GetItem(root, source.value.text, caseSensitive).Some? {
        FailingAddLeaves(root, path, At(root, GetItem(root, source.value.text, caseSensitive).value), caseSensitive);
      }
    case _ =>
  }

  /**
   A list of patches that fails has a first operation that fails. What is left is what the operations
   before it made of the document, unless that operation takes something out first or is a `test` that
   reaches an unsorted object; with distinct keys, exactly then. Only taking out changes what it means.
   */
  lemma {:induction false} FirstFailure(root: Value, patches: seq<Value>, caseSensitive: bool) returns (n: nat)
    requires ApplyAll(root, patches, caseSensitive).status != 0
    ensures n < |patches|
    ensures ApplyAll(root, patches[..n], caseSensitive).status == 0
    ensures var reached := ApplyAll(root, patches[..n], caseSensitive).root;
            ApplyAll(root, patches, caseSensitive) == ApplyPatch(reached, patches[n], caseSensitive)
    ensures var reached := ApplyAll(root, patches[..n], caseSensitive).root;
            var changes := ApplyAll(root, patches, caseSensitive).root != reached;
            var guard := TakesOutFirst(reached, patches[n], caseSensitive) || TestReorders(reached, patches[n], caseSensitive);
            && (changes ==> guard)
            && (TakesOutFirst(reached, patches[n], caseSensitive) ==> changes)
            && (Distinct(reached) ==> (changes <==> guard))
            && (Distinct(reached) ==>
                  (Denote(ApplyAll(root, patches, caseSensitive).root) != Denote(reached)
                   <==> TakesOutFirst(reached, patches[n], caseSensitive)))
    decreases |patches|
  {
    var first := ApplyPatch(root, patches[0], caseSensitive);
    hide ApplyPatch, TakesOutFirst, TestReorders, Distinct, Denote;
    if first.status != 0 {
      n := 0;
      assert patches[..0] == [];
      FailureChangesExactly(root, patches[0], caseSensitive);
      if Distinct(root) { FailureMeansExactly(root, patches[0], caseSensitive); }
    } else {
      var m := FirstFailure(first.root, patches[1..], caseSensitive);
      n := m + 1;
      OneInFront(root, patches, m, caseSensitive);
      hide ApplyAll;
    }
  }

  lemma ReadsBareReplace(root: Value, path: string, caseSensitive: bool)
    requires path != "" && DetachPath(root, path, caseSensitive).Detached?
    ensures ApplyPatch(root, MakePatch("replace", path, None), caseSensitive)
         == Patched(DetachPath(root, path, caseSensitive).root, 7)
  {
    ReadsOperation("replace", path, None, caseSensitive);
    OperationNames();
    hide DetachPath, GetObjectItem, AddAt, MakePatch;
    assert DecodeOperation(MakePatch("replace", path, None), caseSensitive) == Operation.Replace;
  }

  /** A `replace` without a value fails, but only after the old value is gone. */
  lemma ReplaceLosesMember(root: Value, place: Place, k: string, keys: iset<string>, caseSensitive: bool)
    requires Tame(root, keys) && Addressable(keys)
    requires Find(Denote(root), place).Some? && Find(Denote(root), place).value.DObject?
    requires k in Find(Denote(root), place).value.members
    ensures var r := ApplyPatch(root, MakePatch("replace", Text(place + [k]), None), caseSensitive);
            && r.status == 7
            && Denote(r.root) == Overwrite(Denote(root), place, DObject(Find(Denote(root), place).value.members - {k}))
  {
    TextBelow(place, k);
    assert Text(place + [k]) != "";
    hide Find, Denote, Tame, Text, Overwrite, DetachPath, Addressable, ApplyPatch;
    DetachesMember(root, place, k, keys, caseSensitive);
    ReadsBareReplace(root, Text(place + [k]), caseSensitive);
  }

  lemma OneInFront(root: Value, patches: seq<Value>, m: nat, caseSensitive: bool)
    requires m + 1 < |patches| && ApplyPatch(root, patches[0], caseSensitive).status == 0
    ensures var first := ApplyPatch(root, patches[0], caseSensitive).root;
            && ApplyAll(root, patches[..m + 1], caseSensitive) == ApplyAll(first, patches[1..][..m], caseSensitive)
            && ApplyAll(root, patches, caseSensitive) == ApplyAll(first, patches[1..], caseSensitive)
            && patches[m + 1] == patches[1..][m]
  {
    assert patches[..m + 1][0] == patches[0] && patches[..m + 1][1..] == patches[1..][..m];
    hide ApplyPatch;
  }

  /** Nothing is found at a key the object does not have. */
  lemma {:induction false} KeyGone(v: Value, place: Place, k: string, keys: iset<string>, caseSensitive: bool)
    requires Tame(v, keys) && ToldApart(keys, caseSensitive) && k in keys
    requires Find(Denote(v), place).Some? && Find(Denote(v), place).value.DObject?
    requires k !in Find(Denote(v), place).value.members
    ensures GetItem(v, Text(place + [k]), caseSensitive) == None
    decreases |place|
  {
    if place == [] {
      assert (place + [k])[1..] == [] && (place + [k])[0] == k;
      assert Text(place + [k]) == "/" + Encode(k) + "";
      NoMember(v, k, keys, caseSensitive);
      GetItemStep(v, Encode(k), "", caseSensitive);
    } else {
      var rest := Text(place[1..] + [k]);
      assert (place + [k])[1..] == place[1..] + [k] && (place + [k])[0] == place[0];
      assert Text(place + [k]) == "/" + Encode(place[0]) + rest;
      SelectAgrees(v, place[0], rest, keys, caseSensitive);
      GetItemStep(v, Encode(place[0]), rest, caseSensitive);
      KeyGone(Child(v, Select(v, Encode(place[0]) + rest, caseSensitive).value), place[1..], k, keys, caseSensitive);
    }
  }

  lemma NoMember(v: Value, k: string, keys: iset<string>, caseSensitive: bool)
    requires v.Object? && Tame(v, keys) && ToldApart(keys, caseSensitive) && k in keys
    requires k !in DenoteMembers(v.members)
    ensures Select(v, Encode(k) + "", caseSensitive) == None
  {
    DenoteMembersKeys(v.members, k);
    forall j | 0 <= j < |v.members| ensures !ComparePointers(v.members[j].key, Encode(k) + "", caseSensitive) {
      EncodedKeyMatches(v.members[j].key, k, "", caseSensitive);
      CompareZero(v.members[j].key, k, caseSensitive);
      assert v.members[j].key in keys && v.members[j].key != k;
    }
  }

  /** A `move` to a place below its own source always fails, after the source is gone. */
  lemma MoveBelowItself(root: Value, place: Place, k: string, l: string, keys: iset<string>, caseSensitive: bool)
    requires Tame(root, keys) && Addressable(keys)
    requires Find(Denote(root), place).Some? && Find(Denote(root), place).value.DObject?
    requires k in Find(Denote(root), place).value.members
    ensures var r := ApplyPatch(root, Transfer("move", Text(place + [k]), Text(place + [k] + [l])), caseSensitive);
            && r.status == 9
            && Denote(r.root) == Overwrite(Denote(root), place, DObject(Find(Denote(root), place).value.members - {k}))
  {
    var without := DObject(Find(Denote(root), place).value.members - {k});
    ToldApartAnyway(keys, true);
    ToldApartAnyway(keys, caseSensitive);
    KeyInVocabulary(root, place, k, keys);
    FindOverwritten(Denote(root), place, without);
    hide Find, Denote, Tame, Text, Overwrite, DetachPath, Addressable, ApplyPatch, ToldApart, GetItem, SplitLast, Encode;
    DetachesMember(root, place, k, keys, caseSensitive);
    var d := DetachPath(root, Text(place + [k]), caseSensitive);
    KeyGone(d.root, place, k, keys, caseSensitive);
    ReadsMove(root, Text(place + [k]), Text(place + [k] + [l]), caseSensitive);
    PathParts(place + [k], l);
  }
}

/**
 A generated patch says no more than it must: every operation touches a place where the two documents
 differ, and two documents of the same meaning get no operation at all.
 */
module DiffPrecise {
  import opened Compare
  import opened CString
  import opened Diff
  import opened Digits
  import opened Json
  import opened KeySort
  import opened PatchEffects
  import opened Places
  import opened Pointer

  // ---- What an operation may touch ----------------------------------------------------------

  /** Two arrays, or two objects: their difference is inside them. */
  predicate SameShape(a: Denotation, b: Denotation) {
    (a.DArray? && b.DArray?) || (a.DObject? && b.DObject?)
  }

  /**
   Both documents have something at the place below `base`, not the same and not of the same shape, and the
   operation brings what `t` has.
   */
  ghost predicate Replacing(p: Value, base: Place, at: Place, w: Value, f: Denotation, t: Denotation) {
    p == MakePatch("replace", Text(base + at), Some(w))
    && Find(f, at).Some? && Find(t, at) == Some(Denote(w)) && Find(f, at) != Find(t, at)
    && !SameShape(Find(f, at).value, Denote(w))
  }

  /** Only `f` has something there; the items too many in an array go one by one, all from the same position. */
  ghost predicate Removing(p: Value, base: Place, at: Place, k: string, f: Denotation, t: Denotation) {
    p == MakePatch("remove", Text(base + at + [k]), None)
    && Find(f, at).Some? && Find(t, at).Some? && Step(Find(f, at).value, k).Some? && Step(Find(t, at).value, k).None?
    && (Find(t, at).value.DArray? ==> k == Decimal(|Find(t, at).value.items|))
  }

  /** Two objects: only `t` has the member, and the operation brings it. */
  ghost predicate Adding(p: Value, base: Place, at: Place, k: string, w: Value, f: Denotation, t: Denotation) {
    p == MakePatch("add", Text(base + at + [k]), Some(w))
    && Find(f, at).Some? && Find(t, at).Some? && Find(f, at).value.DObject? && Find(t, at).value.DObject?
    && Step(Find(f, at).value, k).None? && Step(Find(t, at).value, k) == Some(Denote(w))
  }

  /** The array of `t` is longer, and the operation brings item `i` to the end of that of `f`. */
  ghost predicate Appending(p: Value, base: Place, at: Place, i: nat, w: Value, f: Denotation, t: Denotation) {
    p == MakePatch("add", Text(base + at + ["-"]), Some(w))
    && Find(f, at).Some? && Find(t, at).Some? && Find(f, at).value.DArray? && Find(t, at).value.DArray?
    && |Find(f, at).value.items| <= i < |Find(t, at).value.items| && Find(t, at).value.items[i] == Denote(w)
  }

  ghost predicate Justified(p: Value, base: Place, f: Denotation, t: Denotation) {
    || (exists at, w :: Replacing(p, base, at, w, f, t))
    || (exists at, k :: Removing(p, base, at, k, f, t))
    || (exists at, k, w :: Adding(p, base, at, k, w, f, t))
    || (exists at, i, w :: Appending(p, base, at, i, w, f, t))
  }

  ghost predicate AllJustified(patches: seq<Value>, base: Place, f: Denotation, t: Denotation) {
    forall i :: 0 <= i < |patches| ==> Justified(patches[i], base, f, t)
  }

  lemma JustifiedTogether(a: seq<Value>, b: seq<Value>, base: Place, f: Denotation, t: Denotation)
    requires AllJustified(a, base, f, t) && AllJustified(b, base, f, t)
    ensures AllJustified(a + b, base, f, t)
  {
    hide Justified;
  }

  lemma NothingJustified(base: Place, f: Denotation, t: Denotation)
    ensures forall none: seq<Value> :: none == [] ==> AllJustified(none, base, f, t)
  {}

  /** Nothing is justified between two documents of the same meaning. */
  lemma SameNeedsNothing(p: Value, base: Place, d: Denotation)
    ensures !Justified(p, base, d, d)
  {
    hide Find, Step, Text, MakePatch, Denote, SameShape;
  }

  lemma Deeper(base: Place, k: string, d: Denotation)
    requires Step(d, k).Some?
    ensures forall at: Place :: base + [k] + at == base + ([k] + at)
    ensures forall at: Place :: Find(d, [k] + at) == Find(Step(d, k).value, at)
  {
    forall at: Place ensures Find(d, [k] + at) == Find(Step(d, k).value, at) {
      assert ([k] + at)[0] == k && ([k] + at)[1..] == at;
    }
  }

  /** One token further up. */
  lemma Lift(p: Value, base: Place, k: string, f: Denotation, t: Denotation)
    requires Step(f, k).Some? && Step(t, k).Some?
    requires Justified(p, base + [k], Step(f, k).value, Step(t, k).value)
    ensures Justified(p, base, f, t)
  {
    var x, y := Step(f, k).value, Step(t, k).value;
    Deeper(base, k, f);
    Deeper(base, k, t);
    hide Find, Step, Text, MakePatch, Denote;
    if at, w :| Replacing(p, base + [k], at, w, x, y) {
      assert Replacing(p, base, [k] + at, w, f, t);
    } else if at, l :| Removing(p, base + [k], at, l, x, y) {
      assert Removing(p, base, [k] + at, l, f, t);
    } else {
      LiftAddition(p, base, k, f, t, x, y);
    }
  }

  lemma LiftAddition(p: Value, base: Place, k: string, f: Denotation, t: Denotation, x: Denotation, y: Denotation)
    requires Step(f, k) == Some(x) && Step(t, k) == Some(y)
    requires (exists at, l, w :: Adding(p, base + [k], at, l, w, x, y))
             || (exists at, i, w :: Appending(p, base + [k], at, i, w, x, y))
    ensures Justified(p, base, f, t)
  {
    Deeper(base, k, f);
    Deeper(base, k, t);
    hide Find, Step, Text, MakePatch, Denote;
    if at, l, w :| Adding(p, base + [k], at, l, w, x, y) {
      assert Adding(p, base, [k] + at, l, w, f, t);
    } else {
      var at, i, w :| Appending(p, base + [k], at, i, w, x, y);
      assert Appending(p, base, [k] + at, i, w, f, t);
    }
  }

  lemma LiftAll(patches: seq<Value>, base: Place, k: string, f: Denotation, t: Denotation)
    requires Step(f, k).Some? && Step(t, k).Some?
    requires AllJustified(patches, base + [k], Step(f, k).value, Step(t, k).value)
    ensures AllJustified(patches, base, f, t)
  {
    hide Justified;
    forall i | 0 <= i < |patches| ensures Justified(patches[i], base, f, t) {
      Lift(patches[i], base, k, f, t);
    }
  }

  // ---- The cases ----------------------------------------------------------------------------

  lemma ReplaceJustified(base: Place, w: Value, f: Denotation)
    requires f != Denote(w) && !SameShape(f, Denote(w))
    ensures AllJustified([MakePatch("replace", Text(base), Some(w))], base, f, Denote(w))
  {
    assert base + [] == base;
    assert Replacing(MakePatch("replace", Text(base), Some(w)), base, [], w, f, Denote(w));
  }

  lemma RemoveJustified(base: Place, k: string, f: Denotation, t: Denotation)
    requires Step(f, k).Some? && Step(t, k).None? && (t.DArray? ==> k == Decimal(|t.items|))
    ensures Justified(MakePatch("remove", Text(base) + "/" + Encode(k), None), base, f, t)
  {
    assert base + [] == base;
    TextBelow(base, k);
    assert Removing(MakePatch("remove", Text(base + [k]), None), base, [], k, f, t);
  }

  lemma AddJustified(base: Place, k: string, w: Value, f: Denotation, t: Denotation)
    requires f.DObject? && t.DObject? && Step(f, k).None? && Step(t, k) == Some(Denote(w))
    ensures Justified(MakePatch("add", Text(base) + "/" + Encode(k), Some(w)), base, f, t)
  {
    assert base + [] == base;
    TextBelow(base, k);
    assert Adding(MakePatch("add", Text(base + [k]), Some(w)), base, [], k, w, f, t);
  }

  lemma {:induction false} RemoveTailJustified(base: Place, index: nat, count: nat, f: Denotation, t: Denotation)
    requires f.DArray? && t.DArray? && (count > 0 ==> index == |t.items| < |f.items|)
    ensures AllJustified(RemoveTail(Text(base), index, count), base, f, t)
  {
    hide Justified, Text;
    if count > 0 {
      TokenOfIndex(index);
      RemoveJustified(base, Decimal(index), f, t);
      RemoveTailJustified(base, index, count - 1, f, t);
    }
  }

  lemma AppendJustified(base: Place, i: nat, w: Value, f: Denotation, t: Denotation)
    requires f.DArray? && t.DArray? && |f.items| <= i < |t.items| && t.items[i] == Denote(w)
    ensures Justified(MakePatch("add", Text(base) + "/" + Encode("-"), Some(w)), base, f, t)
  {
    assert base + [] == base;
    TextBelow(base, "-");
    assert Appending(MakePatch("add", Text(base + ["-"]), Some(w)), base, [], i, w, f, t);
  }

  lemma {:induction false} AppendTailJustified(base: Place, more: seq<Value>, i: nat, f: Denotation, t: Denotation)
    requires f.DArray? && t.DArray? && |f.items| <= i && i + |more| == |t.items|
    requires forall j :: 0 <= j < |more| ==> t.items[i + j] == Denote(more[j])
    ensures AllJustified(AppendTail(Text(base), more), base, f, t)
    decreases |more|
  {
    hide Justified, Text;
    if more != [] {
      assert t.items[i + 0] == Denote(more[0]);
      AppendJustified(base, i, more[0], f, t);
      forall j | 0 <= j < |more[1..]| ensures t.items[i + 1 + j] == Denote(more[1..][j]) {
        assert more[1..][j] == more[j + 1] && t.items[i + (j + 1)] == Denote(more[j + 1]);
      }
      AppendTailJustified(base, more[1..], i + 1, f, t);
    }
  }

  // ---- The walk -----------------------------------------------------------------------------

  lemma {:induction false} Precise(base: Place, from: Value, to: Value, keys: iset<string>, caseSensitive: bool)
    requires Tame(from, keys) && Tame(to, keys) && ToldApart(keys, caseSensitive)
    ensures AllJustified(CreatePatches(Text(base), from, to, caseSensitive), base, Denote(from), Denote(to))
    ensures CreatePatches(Text(base), from, to, caseSensitive) == [] ==> Denote(from) == Denote(to)
    decreases from, 2
  {
    if Kind(from) != Kind(to) {
      ReplaceJustified(base, to, Denote(from));
    } else if from.Array? {
      ItemsPrecise(base, from, to, 0, keys, caseSensitive);
    } else if from.Object? {
      ObjectPrecise(base, from, to, keys, caseSensitive);
    } else {
      if from.Number? { CompareDoubleIsEquality(from.num, to.num); }
      if Denote(from) != Denote(to) { ReplaceJustified(base, to, Denote(from)); }
    }
  }

  ghost predicate SameFrom(from: Value, to: Value, index: nat)
    requires from.Array? && to.Array?
  {
    |from.items| == |to.items|
    && forall j :: index <= j < |from.items| ==> Denote(from.items[j]) == Denote(to.items[j])
  }

  lemma ItemPatchesAre(base: Place, from: Value, to: Value, index: nat, caseSensitive: bool)
    requires from.Array? && to.Array? && index <= |from.items| && index <= |to.items|
    ensures CreateItemPatches(Text(base), from, to, index, caseSensitive)
         == if index < |from.items| && index < |to.items| then
              CreatePatches(Text(base) + "/" + Decimal(index), from.items[index], to.items[index], caseSensitive)
              + CreateItemPatches(Text(base), from, to, index + 1, caseSensitive)
            else
              RemoveTail(Text(base), index, |from.items| - index) + AppendTail(Text(base), to.items[index..])
  {
    hide CreatePatches, RemoveTail, AppendTail, Text;
  }

  lemma {:induction false} ItemsPrecise(base: Place, from: Value, to: Value, index: nat, keys: iset<string>, caseSensitive: bool)
    requires Tame(from, keys) && Tame(to, keys) && ToldApart(keys, caseSensitive)
    requires from.Array? && to.Array? && index <= |from.items| && index <= |to.items|
    ensures var patches := CreateItemPatches(Text(base), from, to, index, caseSensitive);
            && AllJustified(patches, base, Denote(from), Denote(to))
            && (patches == [] ==> SameFrom(from, to, index))
    decreases from, 1, |from.items| - index
  {
    var f, t := Denote(from), Denote(to);
    ItemPatchesAre(base, from, to, index, caseSensitive);
    hide AllJustified, Text, MakePatch, CreatePatches, CreateItemPatches, Denote, Tame;
    if index < |from.items| && index < |to.items| {
      var first := CreatePatches(Text(base) + "/" + Decimal(index), from.items[index], to.items[index], caseSensitive);
      SharedItemPrecise(base, from, to, index, keys, caseSensitive);
      ItemsPrecise(base, from, to, index + 1, keys, caseSensitive);
      JustifiedTogether(first, CreateItemPatches(Text(base), from, to, index + 1, caseSensitive), base, f, t);
    } else {
      TailPrecise(base, from, to, index);
    }
  }

  lemma {:induction false} SharedItemPrecise(base: Place, from: Value, to: Value, index: nat, keys: iset<string>, caseSensitive: bool)
    requires Tame(from, keys) && Tame(to, keys) && ToldApart(keys, caseSensitive)
    requires from.Array? && to.Array? && index < |from.items| && index < |to.items|
    ensures var first := CreatePatches(Text(base) + "/" + Decimal(index), from.items[index], to.items[index], caseSensitive);
            && AllJustified(first, base, Denote(from), Denote(to))
            && (first == [] ==> Denote(from.items[index]) == Denote(to.items[index]))
    decreases from, 0
  {
    var first := CreatePatches(Text(base) + "/" + Decimal(index), from.items[index], to.items[index], caseSensitive);
    TextBelow(base, Decimal(index));
    IndexSurvives(index);
    TokenOfIndex(index);
    Precise(base + [Decimal(index)], from.items[index], to.items[index], keys, caseSensitive);
    hide Decimal, TokenIndex, Encode, Tame, AllJustified, Text, CreatePatches;
    LiftAll(first, base, Decimal(index), Denote(from), Denote(to));
  }

  lemma TailPrecise(base: Place, from: Value, to: Value, index: nat)
    requires from.Array? && to.Array? && index <= |from.items| && index <= |to.items|
    requires index == |from.items| || index == |to.items|
    ensures var patches := RemoveTail(Text(base), index, |from.items| - index) + AppendTail(Text(base), to.items[index..]);
            && AllJustified(patches, base, Denote(from), Denote(to))
            && (patches == [] ==> |from.items| == |to.items|)
  {
    var f, t, more := Denote(from), Denote(to), to.items[index..];
    hide AllJustified, Text, MakePatch;
    RemoveTailJustified(base, index, |from.items| - index, f, t);
    NothingJustified(base, f, t);
    if more != [] {
      forall j | 0 <= j < |more| ensures t.items[index + j] == Denote(more[j]) {
        assert more[j] == to.items[index + j];
      }
      AppendTailJustified(base, more, index, f, t);
    }
    JustifiedTogether(RemoveTail(Text(base), index, |from.items| - index), AppendTail(Text(base), more), base, f, t);
  }

  /** What is left of a member list: it agrees with its map, and with the other list on the keys of the other map. */
  ghost predicate Left(a: Members, m: map<string, Denotation>, b: Members, n: map<string, Denotation>) {
    forall i :: 0 <= i < |a| ==>
      a[i].key in m && m[a[i].key] == Denote(a[i].item) && (a[i].key in n ==> HasKey(b, a[i].key))
  }

  /** The entries of `a` have the same value in the map `n`. */
  ghost predicate Agree(a: Members, n: map<string, Denotation>) {
    forall i :: 0 <= i < |a| ==> a[i].key in n && n[a[i].key] == Denote(a[i].item)
  }

  lemma WholeIsLeft(a: Members, b: Members)
    requires DistinctKeys(a)
    ensures Left(a, DenoteMembers(a), b, DenoteMembers(b))
  {
    DenoteMembersAll(a);
    forall i | 0 <= i < |a| ensures a[i].key in DenoteMembers(b) ==> HasKey(b, a[i].key) {
      DenoteMembersKeys(b, a[i].key);
    }
  }

  lemma {:induction false} ObjectPrecise(base: Place, from: Value, to: Value, keys: iset<string>, caseSensitive: bool)
    requires Tame(from, keys) && Tame(to, keys) && ToldApart(keys, caseSensitive) && from.Object? && to.Object?
    ensures AllJustified(CreatePatches(Text(base), from, to, caseSensitive), base, Denote(from), Denote(to))
    ensures CreatePatches(Text(base), from, to, caseSensitive) == [] ==> Denote(from) == Denote(to)
    decreases from, 1
  {
    var a, b := Sort(from.members, caseSensitive), Sort(to.members, caseSensitive);
    SortedFrom(from.members, a, caseSensitive);
    SortedIsOrdered(from.members, keys, caseSensitive);
    SortedIsOrdered(to.members, keys, caseSensitive);
    WholeIsLeft(a, b);
    WholeIsLeft(b, a);
    MembersPrecise(base, from, a, b, Denote(from), Denote(to), keys, caseSensitive);
    if CreatePatches(Text(base), from, to, caseSensitive) == [] {
      SameMaps(a, b);
    }
  }

  lemma SameMaps(a: Members, b: Members)
    requires Agree(a, DenoteMembers(b)) && Agree(b, DenoteMembers(a))
    ensures DenoteMembers(a) == DenoteMembers(b)
  {
    var m, n := DenoteMembers(a), DenoteMembers(b);
    forall k ensures k in m <==> k in n {
      DenoteMembersKeys(a, k);
      DenoteMembersKeys(b, k);
    }
    forall k | k in m ensures k in n && m[k] == n[k] {
      DenoteMembersKeys(b, k);
      var j :| 0 <= j < |b| && b[j].key == k;
      DenoteMembersKeys(a, k);
      var i :| 0 <= i < |a| && a[i].key == k;
      assert n[a[i].key] == Denote(a[i].item);
      FirstAgrees(a, k, n);
    }
  }

  lemma {:induction false} FirstAgrees(a: Members, k: string, n: map<string, Denotation>)
    requires Agree(a, n) && k in DenoteMembers(a)
    ensures k in n && DenoteMembers(a)[k] == n[k]
  {
    if a[0].key != k { FirstAgrees(a[1..], k, n); }
  }

  /** The walk over what is left of two sorted member lists. */
  lemma {:induction false} MembersPrecise(base: Place, whole: Value, a: Members, b: Members, f: Denotation, t: Denotation,
                                          keys: iset<string>, caseSensitive: bool)
    requires whole.Object? && f.DObject? && t.DObject? && ToldApart(keys, caseSensitive)
    requires forall e :: e in a ==> e in whole.members
    requires Ordered(a, keys, caseSensitive) && Ordered(b, keys, caseSensitive)
    requires Left(a, f.members, b, t.members) && Left(b, t.members, a, f.members)
    ensures var patches := CreateMemberPatches(Text(base), whole, a, b, caseSensitive);
            && AllJustified(patches, base, f, t)
            && (patches == [] ==> Agree(a, t.members) && Agree(b, f.members))
    decreases whole, 0, |a| + |b|
  {
    if a != [] || b != [] {
      var diff := if a == [] then 1 else if b == [] then -1 else CompareStrings(a[0].key, b[0].key, caseSensitive);
      if diff == 0 {
        CompareZero(a[0].key, b[0].key, caseSensitive);
        SharedPrecise(base, whole, a, b, f, t, keys, caseSensitive);
      } else if diff < 0 {
        RemovedPrecise(base, a, b, f, t, keys, caseSensitive);
        hide AllJustified, Text, MakePatch, CreatePatches, Tame, CompareStrings;
        MembersPrecise(base, whole, a[1..], b, f, t, keys, caseSensitive);
      } else {
        AddedPrecise(base, a, b, f, t, keys, caseSensitive);
        hide AllJustified, Text, MakePatch, CreatePatches, Tame, CompareStrings;
        MembersPrecise(base, whole, a, b[1..], f, t, keys, caseSensitive);
      }
    }
  }

  /** The smaller name is missing from the second list. */
  lemma RemovedPrecise(base: Place, a: Members, b: Members, f: Denotation, t: Denotation,
                       keys: iset<string>, caseSensitive: bool)
    requires f.DObject? && t.DObject? && ToldApart(keys, caseSensitive)
    requires Ordered(a, keys, caseSensitive) && Ordered(b, keys, caseSensitive)
    requires Left(a, f.members, b, t.members) && Left(b, t.members, a, f.members)
    requires a != [] && (b == [] || CompareStrings(a[0].key, b[0].key, caseSensitive) < 0)
    ensures AllJustified([MakePatch("remove", Text(base) + "/" + Encode(a[0].key), None)], base, f, t)
    ensures Left(a[1..], f.members, b, t.members) && Left(b, t.members, a[1..], f.members) && Ordered(a[1..], keys, caseSensitive)
  {
    SmallerHeadMissing(a, b, keys, caseSensitive);
    DenoteMembersKeys(b, a[0].key);
    LeftWithoutHead(a, f.members, b, t.members, keys, caseSensitive);
    RemoveJustified(base, a[0].key, f, t);
  }

  /** The smaller name is missing from the first list. */
  lemma AddedPrecise(base: Place, a: Members, b: Members, f: Denotation, t: Denotation,
                     keys: iset<string>, caseSensitive: bool)
    requires f.DObject? && t.DObject? && ToldApart(keys, caseSensitive)
    requires Ordered(a, keys, caseSensitive) && Ordered(b, keys, caseSensitive)
    requires Left(a, f.members, b, t.members) && Left(b, t.members, a, f.members)
    requires b != [] && (a == [] || CompareStrings(a[0].key, b[0].key, caseSensitive) > 0)
    ensures AllJustified([MakePatch("add", Text(base) + "/" + Encode(b[0].key), Some(b[0].item))], base, f, t)
    ensures Left(a, f.members, b[1..], t.members) && Left(b[1..], t.members, a, f.members) && Ordered(b[1..], keys, caseSensitive)
  {
    if a != [] { CompareFlips(a[0].key, b[0].key, caseSensitive); }
    SmallerHeadMissing(b, a, keys, caseSensitive);
    DenoteMembersKeys(a, b[0].key);
    LeftWithoutHead(b, t.members, a, f.members, keys, caseSensitive);
    AddJustified(base, b[0].key, b[0].item, f, t);
  }

  /** Dropping a head that the other list does not have. */
  lemma LeftWithoutHead(a: Members, m: map<string, Denotation>, b: Members, n: map<string, Denotation>,
                        keys: iset<string>, caseSensitive: bool)
    requires a != [] && Ordered(a, keys, caseSensitive) && Left(a, m, b, n) && Left(b, n, a, m) && !HasKey(b, a[0].key)
    ensures Left(a[1..], m, b, n) && Left(b, n, a[1..], m) && Ordered(a[1..], keys, caseSensitive)
  {
    DenoteSplitsHead(a, keys, caseSensitive);
    forall i | 0 <= i < |b| && b[i].key in m ensures HasKey(a[1..], b[i].key) {
      var j :| 0 <= j < |a| && a[j].key == b[i].key;
      assert j > 0;
      assert a[1..][j - 1].key == b[i].key;
    }
  }

  lemma {:induction false} SharedPrecise(base: Place, whole: Value, a: Members, b: Members, f: Denotation, t: Denotation,
                                         keys: iset<string>, caseSensitive: bool)
    requires whole.Object? && f.DObject? && t.DObject? && ToldApart(keys, caseSensitive)
    requires forall e :: e in a ==> e in whole.members
    requires Ordered(a, keys, caseSensitive) && Ordered(b, keys, caseSensitive)
    requires Left(a, f.members, b, t.members) && Left(b, t.members, a, f.members)
    requires a != [] && b != [] && a[0].key == b[0].key
    ensures var patches := CreatePatches(Text(base) + "/" + Encode(a[0].key), a[0].item, b[0].item, caseSensitive)
                           + CreateMemberPatches(Text(base), whole, a[1..], b[1..], caseSensitive);
            && AllJustified(patches, base, f, t)
            && (patches == [] ==> Agree(a, t.members) && Agree(b, f.members))
    decreases whole, 0, |a| + |b|, 0
  {
    var first := CreatePatches(Text(base) + "/" + Encode(a[0].key), a[0].item, b[0].item, caseSensitive);
    var more := CreateMemberPatches(Text(base), whole, a[1..], b[1..], caseSensitive);
    FirstPrecise(base, whole, a, b, f, t, keys, caseSensitive);
    BothWithoutHeads(a, f.members, b, t.members, keys, caseSensitive);
    MembersPrecise(base, whole, a[1..], b[1..], f, t, keys, caseSensitive);
    JustifiedTogether(first, more, base, f, t);
    hide AllJustified, Text, Tame, CreatePatches, CreateMemberPatches, Denote, Ordered;
    if first + more == [] {
      AgreeWithHead(a, f.members, t.members);
      AgreeWithHead(b, t.members, f.members);
    }
  }

  lemma AgreeWithHead(a: Members, m: map<string, Denotation>, n: map<string, Denotation>)
    requires a != [] && a[0].key in n && n[a[0].key] == Denote(a[0].item) && Agree(a[1..], n)
    ensures Agree(a, n)
  {
    hide Denote;
    forall i | 0 <= i < |a| ensures a[i].key in n && n[a[i].key] == Denote(a[i].item) {
      if i > 0 { assert a[1..][i - 1] == a[i]; }
    }
  }

  lemma {:induction false} FirstPrecise(base: Place, whole: Value, a: Members, b: Members, f: Denotation, t: Denotation,
                                        keys: iset<string>, caseSensitive: bool)
    requires whole.Object? && f.DObject? && t.DObject? && ToldApart(keys, caseSensitive)
    requires (forall e :: e in a ==> e in whole.members) && a != [] && b != [] && a[0].key == b[0].key
    requires Tame(a[0].item, keys) && Tame(b[0].item, keys)
    requires Left(a, f.members, b, t.members) && Left(b, t.members, a, f.members)
    ensures var first := CreatePatches(Text(base) + "/" + Encode(a[0].key), a[0].item, b[0].item, caseSensitive);
            AllJustified(first, base, f, t) && (first == [] ==> Denote(a[0].item) == Denote(b[0].item))
    decreases whole, 0, 0
  {
    var k := a[0].key;
    var first := CreatePatches(Text(base) + "/" + Encode(k), a[0].item, b[0].item, caseSensitive);
    assert a[0] in whole.members;
    TextBelow(base, k);
    Precise(base + [k], a[0].item, b[0].item, keys, caseSensitive);
    assert Step(f, k) == Some(Denote(a[0].item)) && Step(t, k) == Some(Denote(b[0].item));
    hide Tame, AllJustified, Text, CreatePatches, Denote;
    LiftAll(first, base, k, f, t);
  }

  lemma BothWithoutHeads(a: Members, m: map<string, Denotation>, b: Members, n: map<string, Denotation>,
                         keys: iset<string>, caseSensitive: bool)
    requires a != [] && b != [] && a[0].key == b[0].key
    requires Ordered(a, keys, caseSensitive) && Ordered(b, keys, caseSensitive) && Left(a, m, b, n) && Left(b, n, a, m)
    ensures Left(a[1..], m, b[1..], n) && Left(b[1..], n, a[1..], m)
    ensures Ordered(a[1..], keys, caseSensitive) && Ordered(b[1..], keys, caseSensitive)
  {
    DenoteSplitsHead(a, keys, caseSensitive);
    DenoteSplitsHead(b, keys, caseSensitive);
    TailKeys(a, m, b, n);
    TailKeys(b, n, a, m);
  }

  lemma TailKeys(a: Members, m: map<string, Denotation>, b: Members, n: map<string, Denotation>)
    requires a != [] && b != [] && a[0].key == b[0].key && DistinctKeys(a) && DistinctKeys(b) && Left(a, m, b, n)
    ensures Left(a[1..], m, b[1..], n)
  {
    forall i | 0 <= i < |a[1..]| && a[1..][i].key in n ensures HasKey(b[1..], a[1..][i].key) {
      assert a[1..][i] == a[i + 1];
      var j :| 0 <= j < |b| && b[j].key == a[i + 1].key;
      assert j > 0;
      assert b[1..][j - 1].key == a[i + 1].key;
    }
  }

  // ---- The public function ------------------------------------------------------------------

  /** No patch is generated exactly between two documents of the same meaning. */
  lemma EmptyExactly(from: Value, to: Value, keys: iset<string>, caseSensitive: bool)
    requires Tame(from, keys) && Tame(to, keys) && ToldApart(keys, caseSensitive)
    ensures CreatePatches("", from, to, caseSensitive) == [] <==> Denote(from) == Denote(to)
  {
    var patches := CreatePatches("", from, to, caseSensitive);
    Precise([], from, to, keys, caseSensitive);
    if Denote(from) == Denote(to) && patches != [] {
      SameNeedsNothing(patches[0], [], Denote(from));
    }
  }

  /** Every generated operation touches a place where the two documents differ. */
  lemma TouchesDifferences(from: Value, to: Value, keys: iset<string>, caseSensitive: bool)
    requires Tame(from, keys) && Tame(to, keys) && ToldApart(keys, caseSensitive)
    ensures AllJustified(CreatePatches("", from, to, caseSensitive), [], Denote(from), Denote(to))
  {
    Precise([], from, to, keys, caseSensitive);
  }
}

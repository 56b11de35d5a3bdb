/**
 JSON Merge Patch (RFC 7396): applying one, generating one, and both against the function the
 standard defines in its section 2.
 */
module MergePatch {
  import opened CString
  import opened Compare
  import opened Json
  import opened KeySort
  import opened Patch

  // ---- The code -----------------------------------------------------------------------------

  /** `merge_patch`; no target stands for a NULL pointer. */
  function Merge(target: Option<Value>, patch: Value, caseSensitive: bool): Value
    decreases patch, 1, 0
  {
    if !patch.Object? then patch
    else
      var members := if target.Some? && target.value.Object? then target.value.members else [];
      Object(MergeMembers(members, patch, patch.members, caseSensitive))
  }

  /** The loop over the members of the patch. */
  function MergeMembers(members: Members, ghost whole: Value, patch: Members, caseSensitive: bool): Members
    requires whole.Object? && forall e :: e in patch ==> e in whole.members
    decreases whole, 0, |patch|
  {
    if patch == [] then members
    else
      assert patch[0] in whole.members;
      var name, item := patch[0].key, patch[0].item;
      var i := IndexOf(members, name, caseSensitive);
      var left := WithoutMember(members, name, caseSensitive);
      if item.Null? then MergeMembers(left, whole, patch[1..], caseSensitive)
      else
        var previous := if i < |members| then Some(members[i].item) else None;
        MergeMembers(left + [Entry(name, Merge(previous, item, caseSensitive))], whole, patch[1..], caseSensitive)
  }

  /** `generate_merge_patch` of two existing trees; nothing stands for a NULL pointer. */
  function Generate(from: Value, to: Value, caseSensitive: bool): Option<Value>
    decreases from, 1, 0
  {
    if !to.Object? || !from.Object? then Some(to)
    else
      SortMembers(from.members, caseSensitive);
      var members := GenerateMembers(from, Sort(from.members, caseSensitive), Sort(to.members, caseSensitive), caseSensitive);
      if members == [] then None else Some(Object(members))
  }

  /** The walk over two sorted member lists: always by `strcmp`, and ignoring case below this level. */
  function GenerateMembers(ghost whole: Value, from: Members, to: Members, caseSensitive: bool): Members
    requires whole.Object? && forall e :: e in from ==> e in whole.members
    decreases whole, 0, |from| + |to|
  {
    if from == [] && to == [] then []
    else
      var diff := if from == [] then 1
                  else if to == [] then -1
                  else CompareStrings(from[0].key, to[0].key, true);
      if diff < 0 then
        [Entry(from[0].key, Null)] + GenerateMembers(whole, from[1..], to, caseSensitive)
      else if diff > 0 then
        [Entry(to[0].key, to[0].item)] + GenerateMembers(whole, from, to[1..], caseSensitive)
      else
        assert from[0] in whole.members;
        var change := if CompareJson(from[0].item, to[0].item, caseSensitive) then None
                      else Generate(from[0].item, to[0].item, false);
        (if change.Some? then [Entry(to[0].key, change.value)] else [])
        + GenerateMembers(whole, from[1..], to[1..], caseSensitive)
  }

  // ---- The standard, on denotations ---------------------------------------------------------

  /** MergePatch of RFC 7396 section 2. */
  function RfcMerge(target: Option<Denotation>, patch: Denotation): Denotation
    decreases patch
  {
    if !patch.DObject? then patch
    else
      var base := if target.Some? && target.value.DObject? then target.value.members else map[];
      DObject(map k | k in base.Keys + patch.members.Keys && !(k in patch.members && patch.members[k].DNull?) ::
                if k in patch.members then RfcMerge(Lookup(base, k), patch.members[k]) else base[k])
  }

  function Lookup<K, V>(m: map<K, V>, k: K): Option<V> {
    if k in m then Some(m[k]) else None
  }

  /** The members of the merged object. */
  function RfcMembers(base: map<string, Denotation>, patch: map<string, Denotation>): map<string, Denotation> {
    map k | k in base.Keys + patch.Keys && !(k in patch && patch[k].DNull?) ::
      if k in patch then RfcMerge(Lookup(base, k), patch[k]) else base[k]
  }

  function DenoteOption(v: Option<Value>): Option<Denotation> {
    if v.Some? then Some(Denote(v.value)) else None
  }

  // ---- merge_patch computes the standard's function -----------------------------------------

  /** Distinct keys per object, drawn from a vocabulary; nothing is asked of the other nodes. */
  ghost predicate Named(v: Value, keys: iset<string>) {
    match v
    case Array(items) => forall i :: 0 <= i < |items| ==> Named(items[i], keys)
    case Object(members) => NamedMembers(members, keys)
    case _ => true
  }

  ghost predicate NamedMembers(members: Members, keys: iset<string>) {
    && DistinctKeys(members)
    && forall i :: 0 <= i < |members| ==> members[i].key in keys && Named(members[i].item, keys)
  }

  lemma {:induction false} RemovesOne(base: map<string, Denotation>, patch: map<string, Denotation>, k: string)
    requires k !in patch
    ensures RfcMembers(base - {k}, patch) == RfcMembers(base, patch[k := DNull])
  {}

  lemma {:induction false} SetsOne(base: map<string, Denotation>, patch: map<string, Denotation>, k: string, x: Denotation)
    requires k !in patch && x != DNull
    ensures RfcMembers(base[k := RfcMerge(Lookup(base, k), x)], patch) == RfcMembers(base, patch[k := x])
  {}

  lemma NamedHead(patch: Members, keys: iset<string>)
    requires patch != [] && NamedMembers(patch, keys)
    ensures NamedMembers(patch[1..], keys) && patch[0].key !in DenoteMembers(patch[1..])
  {
    DenoteMembersKeys(patch[1..], patch[0].key);
  }

  lemma WithoutMemberDenotes(members: Members, k: string, keys: iset<string>, caseSensitive: bool)
    requires NamedMembers(members, keys) && k in keys && ToldApart(keys, caseSensitive)
    ensures var left := WithoutMember(members, k, caseSensitive);
            && NamedMembers(left, keys)
            && DenoteMembers(left) == DenoteMembers(members) - {k}
            && !HasKey(left, k)
  {
    LookupIsMapAmong(members, k, caseSensitive, keys);
    var i := IndexOf(members, k, caseSensitive);
    if i < |members| { DenoteRemove(members, i); }
    DenoteMembersKeys(WithoutMember(members, k, caseSensitive), k);
    assert k !in DenoteMembers(WithoutMember(members, k, caseSensitive));
  }

  lemma {:induction false} MergeIsRfc(target: Option<Value>, patch: Value, keys: iset<string>, caseSensitive: bool)
    requires (target.Some? ==> Named(target.value, keys)) && Named(patch, keys) && ToldApart(keys, caseSensitive)
    ensures Named(Merge(target, patch, caseSensitive), keys)
    ensures Denote(Merge(target, patch, caseSensitive)) == RfcMerge(DenoteOption(target), Denote(patch))
    decreases patch, 1, 0
  {
    if patch.Object? {
      var members := if target.Some? && target.value.Object? then target.value.members else [];
      MergeMembersIsRfc(members, patch, patch.members, keys, caseSensitive);
      if target.Some? && !target.value.Object? { assert !Denote(target.value).DObject?; }
    }
  }

  /** What one member of the patch, not null, does to the map. */
  lemma MergesOne(members: Members, name: string, merged: Value, keys: iset<string>, caseSensitive: bool)
    requires NamedMembers(members, keys) && name in keys && ToldApart(keys, caseSensitive) && Named(merged, keys)
    ensures var now := WithoutMember(members, name, caseSensitive) + [Entry(name, merged)];
            NamedMembers(now, keys) && DenoteMembers(now) == DenoteMembers(members)[name := Denote(merged)]
  {
    var left, e := WithoutMember(members, name, caseSensitive), Entry(name, merged);
    WithoutMemberDenotes(members, name, keys, caseSensitive);
    DenoteAppend(left, e);
    var base := DenoteMembers(members);
    assert (base - {name})[name := Denote(merged)] == base[name := Denote(merged)];
  }

  lemma {:induction false} MergeMembersIsRfc(members: Members, whole: Value, patch: Members, keys: iset<string>, caseSensitive: bool)
    requires whole.Object? && forall e :: e in patch ==> e in whole.members
    requires NamedMembers(members, keys) && NamedMembers(patch, keys) && ToldApart(keys, caseSensitive)
    ensures NamedMembers(MergeMembers(members, whole, patch, caseSensitive), keys)
    ensures DenoteMembers(MergeMembers(members, whole, patch, caseSensitive))
         == RfcMembers(DenoteMembers(members), DenoteMembers(patch))
    decreases whole, 0, |patch|
  {
    if patch == [] {
      assert RfcMembers(DenoteMembers(members), map[]) == DenoteMembers(members);
    } else {
      assert patch[0] in whole.members;
      var name, item := patch[0].key, patch[0].item;
      var base, rest := DenoteMembers(members), DenoteMembers(patch[1..]);
      NamedHead(patch, keys);
      hide RfcMembers, WithoutMember, ToldApart;
      if item.Null? {
        WithoutMemberDenotes(members, name, keys, caseSensitive);
        MergeMembersIsRfc(WithoutMember(members, name, caseSensitive), whole, patch[1..], keys, caseSensitive);
        RemovesOne(base, rest, name);
      } else {
        var i := IndexOf(members, name, caseSensitive);
        var previous := if i < |members| then Some(members[i].item) else None;
        LookupIsMapAmong(members, name, caseSensitive, keys);
        MergeIsRfc(previous, item, keys, caseSensitive);
        var merged := Merge(previous, item, caseSensitive);
        MergesOne(members, name, merged, keys, caseSensitive);
        MergeMembersIsRfc(WithoutMember(members, name, caseSensitive) + [Entry(name, merged)], whole, patch[1..], keys, caseSensitive);
        SetsOne(base, rest, name, Denote(item));
      }
    }
  }

  /** The law for case-sensitive merging, on every target (also none) and every patch without repeated keys. */
  lemma MergeComputesRfc(target: Option<Value>, patch: Value)
    requires (target.Some? ==> Distinct(target.value)) && Distinct(patch)
    ensures Denote(Merge(target, patch, true)) == RfcMerge(DenoteOption(target), Denote(patch))
    ensures Distinct(Merge(target, patch, true))
  {
    if target.Some? { DistinctIsNamed(target.value); }
    DistinctIsNamed(patch);
    AnyKeyToldApart();
    MergeIsRfc(target, patch, ANY_KEY, true);
    DistinctIsNamed(Merge(target, patch, true));
  }

  lemma {:induction false} DistinctIsNamed(v: Value)
    ensures Distinct(v) <==> Named(v, ANY_KEY)
  {
    match v
    case Array(items) =>
      forall i | 0 <= i < |items| ensures Distinct(items[i]) <==> Named(items[i], ANY_KEY) {
        DistinctIsNamed(items[i]);
      }
    case Object(members) =>
      forall i | 0 <= i < |members| ensures Distinct(members[i].item) <==> Named(members[i].item, ANY_KEY) {
        DistinctIsNamed(members[i].item);
      }
    case _ =>
  }

  // ---- What a generated merge patch means ---------------------------------------------------

  /** The merge patch from `from` to `to`, on denotations. */
  function Difference(from: Denotation, goal: Denotation): Denotation
    decreases goal
  {
    if !from.DObject? || !goal.DObject? then goal
    else
      DObject(map k | k in from.members.Keys + goal.members.Keys
                      && !(k in from.members && k in goal.members && from.members[k] == goal.members[k]) ::
                if k !in goal.members then DNull
                else if k !in from.members then goal.members[k]
                else Difference(from.members[k], goal.members[k]))
  }

  function DifferenceMembers(from: map<string, Denotation>, to: map<string, Denotation>): map<string, Denotation> {
    map k | k in from.Keys + to.Keys && !(k in from && k in to && from[k] == to[k]) ::
      if k !in to then DNull
      else if k !in from then to[k]
      else Difference(from[k], to[k])
  }

  /**
   A vocabulary that sorts the same way with and without case. The generator needs it: it sorts by
   the one comparison and walks by the other.
   */
  ghost predicate SameOrder(keys: iset<string>) {
    forall k, l :: k in keys && l in keys ==> CompareStrings(k, l, false) == CompareStrings(k, l, true)
  }

  lemma SameOrderToldApart(keys: iset<string>, caseSensitive: bool)
    requires SameOrder(keys)
    ensures ToldApart(keys, caseSensitive)
  {
    forall k, l | k in keys && l in keys && Fold(k, caseSensitive) == Fold(l, caseSensitive) ensures k == l {
      CompareZero(k, l, caseSensitive);
      CompareZero(k, l, true);
      FoldIsIdentity(k);
      FoldIsIdentity(l);
    }
  }

  /** Members in strictly increasing `strcmp` order. */
  lemma OrderedByStrcmp(s: Members, keys: iset<string>, caseSensitive: bool)
    requires SameOrder(keys) && Ordered(s, keys, caseSensitive)
    ensures Ordered(s, keys, true)
  {
    forall i, j | 0 <= i < j < |s| ensures CompareKeys(s[i], s[j], true) < 0 {
      assert CompareStrings(s[i].key, s[j].key, false) == CompareStrings(s[i].key, s[j].key, true);
    }
  }

  /** `DObject` of no members stands for the NULL that `generate_merge_patch` then returns. */
  function DenoteChange(change: Option<Value>): Denotation {
    if change.Some? then Denote(change.value) else DObject(map[])
  }

  lemma {:induction false} TameIsNamed(v: Value, keys: iset<string>)
    requires Tame(v, keys)
    ensures Named(v, keys)
  {
    match v
    case Array(items) =>
      forall i | 0 <= i < |items| ensures Named(items[i], keys) { TameIsNamed(items[i], keys); }
    case Object(members) =>
      forall i | 0 <= i < |members| ensures Named(members[i].item, keys) { TameIsNamed(members[i].item, keys); }
    case _ =>
  }

  lemma {:induction false} GenerateMeans(from: Value, to: Value, keys: iset<string>, caseSensitive: bool)
    requires Tame(from, keys) && Tame(to, keys) && SameOrder(keys)
    ensures var r := Generate(from, to, caseSensitive);
            && (r.Some? ==> Named(r.value, keys))
            && (r.None? <==> from.Object? && to.Object? && Denote(from) == Denote(to))
            && DenoteChange(r) == Difference(Denote(from), Denote(to))
    decreases from, 1, 0
  {
    TameIsNamed(to, keys);
    if from.Object? && to.Object? {
      var sf, st := Sort(from.members, caseSensitive), Sort(to.members, caseSensitive);
      SortMembers(from.members, caseSensitive);
      SameOrderToldApart(keys, caseSensitive);
      SortedIsOrdered(from.members, keys, caseSensitive);
      SortedIsOrdered(to.members, keys, caseSensitive);
      OrderedByStrcmp(sf, keys, caseSensitive);
      OrderedByStrcmp(st, keys, caseSensitive);
      GenerateMembersMeans(from, sf, st, keys, caseSensitive);
      var members := GenerateMembers(from, sf, st, caseSensitive);
      DifferenceEmpty(DenoteMembers(from.members), DenoteMembers(to.members));
      if members != [] { assert members[0].key in DenoteMembers(members); }
    } else if !from.Object? {
      assert !Denote(from).DObject?;
    } else {
      assert !Denote(to).DObject?;
    }
  }

  lemma DifferenceEmpty(from: map<string, Denotation>, to: map<string, Denotation>)
    ensures DifferenceMembers(from, to) == map[] <==> from == to
  {
    var d := DifferenceMembers(from, to);
    if d == map[] {
      forall k | k in from.Keys + to.Keys ensures k in from && k in to && from[k] == to[k] {
        assert k !in d;
      }
      assert from.Keys == to.Keys;
    }
  }

  lemma {:induction false} GenerateMembersMeans(whole: Value, from: Members, to: Members, keys: iset<string>, caseSensitive: bool)
    requires whole.Object? && forall e :: e in from ==> e in whole.members
    requires Ordered(from, keys, true) && Ordered(to, keys, true) && SameOrder(keys)
    ensures var r := GenerateMembers(whole, from, to, caseSensitive);
            && NamedMembers(r, keys)
            && DenoteMembers(r) == DifferenceMembers(DenoteMembers(from), DenoteMembers(to))
    decreases whole, 0, |from| + |to|
  {
    AnyKeyToldApart();
    SameOrderToldApart(keys, true);
    if from == [] && to == [] {
      assert DifferenceMembers(map[], map[]) == map[];
    } else {
      var diff := if from == [] then 1
                  else if to == [] then -1
                  else CompareStrings(from[0].key, to[0].key, true);
      if diff < 0 {
        DenoteSplitsHead(from, keys, true);
        SmallerHeadMissing(from, to, keys, true);
        GenerateMembersMeans(whole, from[1..], to, keys, caseSensitive);
        OnlyBefore(DenoteMembers(from[1..]), DenoteMembers(to), from[0].key, Denote(from[0].item));
        PrependNamed(Entry(from[0].key, Null), GenerateMembers(whole, from[1..], to, caseSensitive), keys);
      } else if diff > 0 {
        if from != [] { CompareFlips(from[0].key, to[0].key, true); }
        DenoteSplitsHead(to, keys, true);
        SmallerHeadMissing(to, from, keys, true);
        GenerateMembersMeans(whole, from, to[1..], keys, caseSensitive);
        TameIsNamed(to[0].item, keys);
        OnlyAfter(DenoteMembers(from), DenoteMembers(to[1..]), to[0].key, Denote(to[0].item));
        PrependNamed(to[0], GenerateMembers(whole, from, to[1..], caseSensitive), keys);
      } else {
        CompareZero(from[0].key, to[0].key, true);
        GenerateShared(whole, from, to, keys, caseSensitive);
      }
    }
  }

  lemma {:induction false} GenerateShared(whole: Value, from: Members, to: Members, keys: iset<string>, caseSensitive: bool)
    requires whole.Object? && forall e :: e in from ==> e in whole.members
    requires Ordered(from, keys, true) && Ordered(to, keys, true) && SameOrder(keys)
    requires from != [] && to != [] && from[0].key == to[0].key
    requires CompareStrings(from[0].key, to[0].key, true) == 0
    ensures var r := GenerateMembers(whole, from, to, caseSensitive);
            && NamedMembers(r, keys)
            && DenoteMembers(r) == DifferenceMembers(DenoteMembers(from), DenoteMembers(to))
    decreases whole, 0, |from| + |to|, 0
  {
    assert from[0] in whole.members;
    var k, f, t := from[0].key, from[0].item, to[0].item;
    SameOrderToldApart(keys, true);
    SameOrderToldApart(keys, caseSensitive);
    DenoteSplitsHead(from, keys, true);
    DenoteSplitsHead(to, keys, true);
    GenerateMembersMeans(whole, from[1..], to[1..], keys, caseSensitive);
    CompareJsonDecides(f, t, keys, caseSensitive);
    GenerateMeans(f, t, keys, false);
    InBoth(DenoteMembers(from[1..]), DenoteMembers(to[1..]), k, Denote(f), Denote(t));
    if !CompareJson(f, t, caseSensitive) {
      PrependNamed(Entry(k, Generate(f, t, false).value), GenerateMembers(whole, from[1..], to[1..], caseSensitive), keys);
    } else {
      assert [] + GenerateMembers(whole, from[1..], to[1..], caseSensitive) == GenerateMembers(whole, from[1..], to[1..], caseSensitive);
    }
  }

  /** A member under a new name in front. */
  lemma {:induction false} PrependNamed(e: Entry<Value>, members: Members, keys: iset<string>)
    requires NamedMembers(members, keys) && e.key in keys && Named(e.item, keys) && e.key !in DenoteMembers(members)
    ensures NamedMembers([e] + members, keys)
    ensures DenoteMembers([e] + members) == DenoteMembers(members)[e.key := Denote(e.item)]
  {
    DenoteMembersKeys(members, e.key);
    assert ([e] + members)[1..] == members;
  }

  lemma {:induction false} OnlyBefore(from: map<string, Denotation>, to: map<string, Denotation>, k: string, x: Denotation)
    requires k !in from && k !in to
    ensures k !in DifferenceMembers(from, to)
    ensures DifferenceMembers(from[k := x], to) == DifferenceMembers(from, to)[k := DNull]
  {}

  lemma {:induction false} OnlyAfter(from: map<string, Denotation>, to: map<string, Denotation>, k: string, y: Denotation)
    requires k !in from && k !in to
    ensures k !in DifferenceMembers(from, to)
    ensures DifferenceMembers(from, to[k := y]) == DifferenceMembers(from, to)[k := y]
  {}

  lemma {:induction false} InBoth(from: map<string, Denotation>, to: map<string, Denotation>, k: string, x: Denotation, y: Denotation)
    requires k !in from && k !in to
    ensures k !in DifferenceMembers(from, to)
    ensures DifferenceMembers(from[k := x], to[k := y]) ==
              if x == y then DifferenceMembers(from, to) else DifferenceMembers(from, to)[k := Difference(x, y)]
  {}

  // ---- Generate, then merge -----------------------------------------------------------------

  /** No member, here or in an object below, is null. Arrays are merged whole and do not matter. */
  ghost predicate NullFree(goal: Denotation) {
    goal.DObject? ==> forall k <- goal.members.Keys :: !goal.members[k].DNull? && NullFree(goal.members[k])
  }

  /** Every null member of `goal` lies in a part that is the same in `from`. */
  ghost predicate NullSafe(from: Option<Denotation>, goal: Denotation)
    decreases goal
  {
    if from.Some? && from.value.DObject? && goal.DObject? then
      forall k <- goal.members.Keys ::
        (k in from.value.members && from.value.members[k] == goal.members[k])
        || (!goal.members[k].DNull? && NullSafe(Lookup(from.value.members, k), goal.members[k]))
    else NullFree(goal)
  }

  /** Merging a whole tree in reproduces it exactly when it holds no null member. */
  lemma {:induction false} MergeWhole(base: Option<Denotation>, goal: Denotation)
    requires base.Some? && base.value.DObject? ==> !goal.DObject?
    ensures RfcMerge(base, goal) == goal <==> NullFree(goal)
    decreases goal
  {
    if goal.DObject? {
      var r := RfcMerge(base, goal).members;
      forall k | k in goal.members
        ensures (k in r && r[k] == goal.members[k]) <==> !goal.members[k].DNull? && NullFree(goal.members[k])
      {
        MergeWhole(None, goal.members[k]);
      }
      if NullFree(goal) { assert r == goal.members; }
    }
  }

  /** Merging the difference leads to `goal` exactly when its null members are out of harm's way. */
  lemma {:induction false} MergeDifference(from: Denotation, goal: Denotation)
    ensures RfcMerge(Some(from), Difference(from, goal)) == goal <==> NullSafe(Some(from), goal)
    decreases goal
  {
    if from.DObject? && goal.DObject? {
      var r := RfcMerge(Some(from), Difference(from, goal)).members;
      forall k | k in goal.members
        ensures (k in r && r[k] == goal.members[k]) <==>
                (k in from.members && from.members[k] == goal.members[k])
                || (!goal.members[k].DNull? && NullSafe(Lookup(from.members, k), goal.members[k]))
      {
        if k in from.members { MergeDifference(from.members[k], goal.members[k]); }
        else { MergeWhole(None, goal.members[k]); }
      }
      if NullSafe(Some(from), goal) { assert r == goal.members; }
    } else {
      MergeWhole(Some(from), goal);
    }
  }

  /**
   Generate, then merge. There is no patch exactly when both trees are objects with equal values;
   otherwise merging the patch into any tree equal to `from` gives a tree equal to `to`, exactly when
   every null member of `to` lies in a part that `from` already has.
   */
  lemma GenerateThenMerge(start: Value, from: Value, to: Value, keys: iset<string>, caseSensitive: bool)
    requires Tame(start, keys) && Tame(from, keys) && Tame(to, keys) && SameOrder(keys)
    requires Denote(start) == Denote(from)
    ensures var r := Generate(from, to, caseSensitive);
            && (r.None? <==> from.Object? && to.Object? && Denote(from) == Denote(to))
            && (r.Some? ==>
                  (Denote(Merge(Some(start), r.value, caseSensitive)) == Denote(to)
                   <==> NullSafe(Some(Denote(from)), Denote(to))))
  {
    GenerateMeans(from, to, keys, caseSensitive);
    var r := Generate(from, to, caseSensitive);
    if r.Some? {
      TameIsNamed(start, keys);
      SameOrderToldApart(keys, caseSensitive);
      MergeIsRfc(Some(start), r.value, keys, caseSensitive);
      MergeDifference(Denote(from), Denote(to));
    }
  }

  /** In particular when `to` has no null member at all. */
  lemma {:induction false} NullFreeIsSafe(from: Option<Denotation>, goal: Denotation)
    requires NullFree(goal)
    ensures NullSafe(from, goal)
    decreases goal
  {
    if from.Some? && from.value.DObject? && goal.DObject? {
      forall k | k in goal.members.Keys ensures NullSafe(Lookup(from.value.members, k), goal.members[k]) {
        NullFreeIsSafe(Lookup(from.value.members, k), goal.members[k]);
      }
    }
  }
}

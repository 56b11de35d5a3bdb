/**
 The loops of the two structural comparisons and of the merge patch routines, tied to the functions
 that `Compare` and `MergePatch` reason about.
 */
module MergeRuns {
  import opened CString
  import opened Compare
  import opened Json
  import opened KeySort
  import opened MergePatch
  import opened Patch

  // ---- Comparing ----------------------------------------------------------------------------

  /** `compare_json`: arrays side by side, objects sorted and then side by side. */
  method CompareJsonInStep(a: Value, b: Value, caseSensitive: bool) returns (same: bool)
    ensures same == CompareJson(a, b, caseSensitive)
    decreases a
  {
    if Kind(a) != Kind(b) { return false; }
    match a {
      case Number(num) => return ValueInt(num) == ValueInt(b.num) && CompareDouble(num, b.num);
      case String(text) => return text == b.text;
      case Array(items) =>
        var i := 0;
        while i < |items| && i < |b.items|
          invariant i <= |items| && i <= |b.items|
          invariant forall j :: 0 <= j < i ==> CompareJson(items[j], b.items[j], caseSensitive)
        {
          var identical := CompareJsonInStep(items[i], b.items[i], caseSensitive);
          if !identical { return false; }
          i := i + 1;
        }
        return i == |items| && i == |b.items|;
      case Object(members) =>
        var s, t := Sort(members, caseSensitive), Sort(b.members, caseSensitive);
        SortedFrom(members, s, caseSensitive);
        while s != [] && t != []
          invariant forall e :: e in s ==> e in members
          invariant CompareInStep(a, s, t, caseSensitive) == CompareJson(a, b, caseSensitive)
          decreases |s|
        {
          assert s[0] in members;
          if CompareStrings(s[0].key, t[0].key, caseSensitive) != 0 { return false; }
          var identical := CompareJsonInStep(s[0].item, t[0].item, caseSensitive);
          if !identical { return false; }
          s, t := s[1..], t[1..];
        }
        return s == [] && t == [];
      case _ => return true;
    }
  }

  /** `cJSON_Compare`: every member of either object is looked up in the other. */
  method CompareValuesInStep(a: Value, b: Value, caseSensitive: bool) returns (same: bool)
    ensures same == CompareValues(a, b, caseSensitive)
    decreases Nesting(a) + Nesting(b)
  {
    if Kind(a) != Kind(b) || a.Invalid? { return false; }
    match a {
      case Number(num) => return CompareDouble(num, b.num);
      case String(text) => return text == b.text;
      case Array(items) =>
        var i := 0;
        while i < |items| && i < |b.items|
          invariant i <= |items| && i <= |b.items|
          invariant forall j :: 0 <= j < i ==> CompareValues(items[j], b.items[j], caseSensitive)
        {
          var identical := CompareValuesInStep(items[i], b.items[i], caseSensitive);
          if !identical { return false; }
          i := i + 1;
        }
        return i == |items| && i == |b.items|;
      case Object(members) =>
        same := AllMatched(members, b, a, caseSensitive);
        if !same { return; }
        same := AllMatched(b.members, a, b, caseSensitive);
      case _ => return true;
    }
  }

  /** One of the two passes over the members in `cJSON_Compare`. */
  method AllMatched(members: Members, other: Value, ghost owner: Value, caseSensitive: bool) returns (all: bool)
    requires other.Object? && owner == Object(members)
    ensures all <==> forall i :: 0 <= i < |members| ==> Matched(members[i], other, caseSensitive)
    decreases Nesting(owner) + Nesting(other), 0
  {
    var i := 0;
    while i < |members|
      invariant i <= |members|
      invariant forall j :: 0 <= j < i ==> Matched(members[j], other, caseSensitive)
    {
      var k := IndexOf(other.members, members[i].key, caseSensitive);
      if k == |other.members| {
        assert !Matched(members[i], other, caseSensitive);
        return false;
      }
      var identical := CompareValuesInStep(members[i].item, other.members[k].item, caseSensitive);
      if !identical {
        assert !Matched(members[i], other, caseSensitive);
        return false;
      }
      i := i + 1;
    }
    return true;
  }

  // ---- Merging ------------------------------------------------------------------------------

  /** `merge_patch`. */
  method MergeInStep(target: Option<Value>, patch: Value, caseSensitive: bool) returns (merged: Value)
    ensures merged == MergePatch.Merge(target, patch, caseSensitive)
    decreases patch
  {
    if !patch.Object? { return patch; }
    var members: Members := [];
    if target.Some? && target.value.Object? {
      members := target.value.members;
    }
    ghost var goal := MergeMembers(members, patch, patch.members, caseSensitive);
    var left := patch.members;
    while left != []
      invariant forall e :: e in left ==> e in patch.members
      invariant MergeMembers(members, patch, left, caseSensitive) == goal
      decreases |left|
    {
      assert left[0] in patch.members;
      var name, item := left[0].key, left[0].item;
      if item.Null? {
        members := WithoutMember(members, name, caseSensitive);
      } else {
        var i := IndexOf(members, name, caseSensitive);
        var replaceMe := if i < |members| then Some(members[i].item) else None;
        members := WithoutMember(members, name, caseSensitive);
        var replacement := MergeInStep(replaceMe, item, caseSensitive);
        members := members + [Entry(name, replacement)];
      }
      left := left[1..];
    }
    return Object(members);
  }

  /** `generate_merge_patch`. */
  method GenerateInStep(from: Value, to: Value, caseSensitive: bool) returns (patch: Option<Value>)
    ensures patch == Generate(from, to, caseSensitive)
    decreases from, 1
  {
    if !to.Object? || !from.Object? { return Some(to); }
    var f, t := Sort(from.members, caseSensitive), Sort(to.members, caseSensitive);
    SortedFrom(from.members, f, caseSensitive);
    var members := GenerateMembersInStep(from, f, t, caseSensitive);
    return if members == [] then None else Some(Object(members));
  }

  /** The walk over both sorted lists in `generate_merge_patch`. */
  method GenerateMembersInStep(ghost whole: Value, from: Members, to: Members, caseSensitive: bool) returns (members: Members)
    requires whole.Object? && forall e :: e in from ==> e in whole.members
    ensures members == GenerateMembers(whole, from, to, caseSensitive)
    decreases whole, 0
  {
    var f, t := from, to;
    members := [];
    ghost var goal := GenerateMembers(whole, from, to, caseSensitive);
    while f != [] || t != []
      invariant forall e :: e in f ==> e in whole.members
      invariant members + GenerateMembers(whole, f, t, caseSensitive) == goal
      decreases |f| + |t|
    {
      ghost var before, rest := members, GenerateMembers(whole, f, t, caseSensitive);
      assert f != [] ==> f[0] in whole.members;
      var piece: Members := [];
      var diff;
      if f != [] {
        if t != [] {
          diff := CompareStrings(f[0].key, t[0].key, true);
        } else {
          diff := -1;
        }
      } else {
        diff := 1;
      }
      if diff < 0 {
        piece := [Entry(f[0].key, Null)];
        f := f[1..];
      } else if diff > 0 {
        piece := [Entry(t[0].key, t[0].item)];
        t := t[1..];
      } else {
        var identical := CompareJsonInStep(f[0].item, t[0].item, caseSensitive);
        if !identical {
          var change := GenerateInStep(f[0].item, t[0].item, false);
          if change.Some? {
            piece := [Entry(t[0].key, change.value)];
          }
        }
        f, t := f[1..], t[1..];
      }
      members := members + piece;
      assert rest == piece + GenerateMembers(whole, f, t, caseSensitive);
      Associative(before, piece, GenerateMembers(whole, f, t, caseSensitive));
    }
  }
}

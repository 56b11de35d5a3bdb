/**
 Merge patches and the order of members: what a patch does not name stays where it was, what it brings
 follows in the order of the patch, and a generated patch is sorted by name.
 */
module MergeOrder {
  import opened Compare
  import opened CString
  import opened Json
  import KeySort
  import opened MergePatch
  import opened Patch

  // ---- Applying a patch ---------------------------------------------------------------------

  /** No two names compare equal. */
  ghost predicate Apart(members: Members, caseSensitive: bool) {
    forall i, j :: 0 <= i < j < |members| ==> Fold(members[i].key, caseSensitive) != Fold(members[j].key, caseSensitive)
  }

  predicate Names(patch: Members, name: string, caseSensitive: bool) {
    exists i :: 0 <= i < |patch| && Fold(patch[i].key, caseSensitive) == Fold(name, caseSensitive)
  }

  /** The members that the patch does not name, in their order. */
  function Untouched(members: Members, patch: Members, caseSensitive: bool): Members {
    if members == [] then []
    else
      (if Names(patch, members[0].key, caseSensitive) then [] else [members[0]])
      + Untouched(members[1..], patch, caseSensitive)
  }

  /** What the object has under a name. */
  function Previous(members: Members, name: string, caseSensitive: bool): Option<Value> {
    var i := IndexOf(members, name, caseSensitive);
    if i < |members| then Some(members[i].item) else None
  }

  /** What the patch brings, each value merged into what the object had under its name. */
  function Brought(members: Members, patch: Members, caseSensitive: bool): Members {
    if patch == [] then []
    else
      (if patch[0].item.Null? then []
       else [Entry(patch[0].key, Merge(Previous(members, patch[0].key, caseSensitive), patch[0].item, caseSensitive))])
      + Brought(members, patch[1..], caseSensitive)
  }

  lemma {:induction false} UntouchedNone(members: Members, caseSensitive: bool)
    ensures Untouched(members, [], caseSensitive) == members
  {
    if members != [] {
      UntouchedNone(members[1..], caseSensitive);
      assert members == [members[0]] + members[1..];
    }
  }

  lemma {:induction false} UntouchedBehind(a: Members, e: Entry<Value>, patch: Members, caseSensitive: bool)
    requires !Names(patch, e.key, caseSensitive)
    ensures Untouched(a + [e], patch, caseSensitive) == Untouched(a, patch, caseSensitive) + [e]
  {
    hide Names;
    if a == [] {
      assert a + [e] == [e] && [e][1..] == [];
    } else {
      UntouchedBehind(a[1..], e, patch, caseSensitive);
      assert (a + [e])[1..] == a[1..] + [e] && (a + [e])[0] == a[0];
    }
  }

  /** The first member of the patch names nothing here. */
  lemma {:induction false} UntouchedAnyway(members: Members, patch: Members, caseSensitive: bool)
    requires patch != []
    requires forall i :: 0 <= i < |members| ==> Fold(members[i].key, caseSensitive) != Fold(patch[0].key, caseSensitive)
    ensures Untouched(members, patch[1..], caseSensitive) == Untouched(members, patch, caseSensitive)
  {
    if members != [] {
      NamesBehind(patch, members[0].key, caseSensitive);
      UntouchedAnyway(members[1..], patch, caseSensitive);
    }
  }

  lemma NamesBehind(patch: Members, name: string, caseSensitive: bool)
    requires patch != [] && Fold(patch[0].key, caseSensitive) != Fold(name, caseSensitive)
    ensures Names(patch[1..], name, caseSensitive) == Names(patch, name, caseSensitive)
  {
    if Names(patch, name, caseSensitive) {
      var i :| 0 <= i < |patch| && Fold(patch[i].key, caseSensitive) == Fold(name, caseSensitive);
      assert patch[1..][i - 1] == patch[i];
    }
  }

  lemma WithoutHead(members: Members, name: string, caseSensitive: bool)
    requires members != []
    ensures WithoutMember(members, name, caseSensitive)
         == if Fold(members[0].key, caseSensitive) == Fold(name, caseSensitive) then members[1..]
            else [members[0]] + WithoutMember(members[1..], name, caseSensitive)
  {
    CompareZero(name, members[0].key, caseSensitive);
    hide CompareStrings, Fold;
  }

  lemma ApartTail(members: Members, caseSensitive: bool)
    requires members != [] && Apart(members, caseSensitive)
    ensures Apart(members[1..], caseSensitive)
    ensures forall i :: 0 <= i < |members[1..]| ==>
              Fold(members[1..][i].key, caseSensitive) != Fold(members[0].key, caseSensitive)
  {}

  lemma NamesFirst(patch: Members, name: string, caseSensitive: bool)
    requires patch != [] && Fold(patch[0].key, caseSensitive) == Fold(name, caseSensitive)
    ensures Names(patch, name, caseSensitive)
  {}

  lemma {:induction false} UntouchedWithout(members: Members, patch: Members, caseSensitive: bool)
    requires patch != [] && Apart(members, caseSensitive)
    ensures Untouched(WithoutMember(members, patch[0].key, caseSensitive), patch[1..], caseSensitive)
         == Untouched(members, patch, caseSensitive)
  {
    if members != [] {
      var name, more := patch[0].key, members[1..];
      WithoutHead(members, name, caseSensitive);
      ApartTail(members, caseSensitive);
      hide Fold, WithoutMember, Names, Apart;
      if Fold(members[0].key, caseSensitive) == Fold(name, caseSensitive) {
        NamesFirst(patch, members[0].key, caseSensitive);
        UntouchedAnyway(more, patch, caseSensitive);
      } else {
        NamesBehind(patch, members[0].key, caseSensitive);
        UntouchedWithout(more, patch, caseSensitive);
        var left := [members[0]] + WithoutMember(more, name, caseSensitive);
        assert left[1..] == WithoutMember(more, name, caseSensitive);
      }
    }
  }

  lemma PreviousHead(members: Members, name: string, caseSensitive: bool)
    requires members != []
    ensures Previous(members, name, caseSensitive)
         == if Fold(members[0].key, caseSensitive) == Fold(name, caseSensitive) then Some(members[0].item)
            else Previous(members[1..], name, caseSensitive)
  {
    CompareZero(name, members[0].key, caseSensitive);
    hide CompareStrings, Fold;
  }

  /** Replacing one member changes no other. */
  lemma {:induction false} PreviousStays(members: Members, e: Entry<Value>, name: string, caseSensitive: bool)
    requires Fold(e.key, caseSensitive) != Fold(name, caseSensitive)
    ensures Previous(WithoutMember(members, e.key, caseSensitive), name, caseSensitive) == Previous(members, name, caseSensitive)
    ensures Previous(WithoutMember(members, e.key, caseSensitive) + [e], name, caseSensitive) == Previous(members, name, caseSensitive)
  {
    if members == [] {
      PreviousHead([e], name, caseSensitive);
      assert [] + [e] == [e] && [e][1..] == [];
    } else {
      var left, more := WithoutMember(members, e.key, caseSensitive), members[1..];
      WithoutHead(members, e.key, caseSensitive);
      PreviousHead(members, name, caseSensitive);
      PreviousStays(more, e, name, caseSensitive);
      if Fold(members[0].key, caseSensitive) == Fold(e.key, caseSensitive) {
        PreviousBehind(more, e, name, caseSensitive);
      } else {
        var short := WithoutMember(more, e.key, caseSensitive);
        assert left[1..] == short && (left + [e])[1..] == short + [e];
        PreviousHead(left, name, caseSensitive);
        PreviousHead(left + [e], name, caseSensitive);
      }
    }
  }

  lemma {:induction false} PreviousBehind(members: Members, e: Entry<Value>, name: string, caseSensitive: bool)
    requires Fold(e.key, caseSensitive) != Fold(name, caseSensitive)
    ensures Previous(members + [e], name, caseSensitive) == Previous(members, name, caseSensitive)
  {
    if members == [] {
      PreviousHead([e], name, caseSensitive);
      assert [] + [e] == [e] && [e][1..] == [];
    } else {
      PreviousBehind(members[1..], e, name, caseSensitive);
      PreviousHead(members, name, caseSensitive);
      PreviousHead(members + [e], name, caseSensitive);
      assert (members + [e])[1..] == members[1..] + [e];
    }
  }

  lemma {:induction false} BroughtStays(members: Members, now: Members, patch: Members, caseSensitive: bool)
    requires forall i :: 0 <= i < |patch| ==>
               Previous(now, patch[i].key, caseSensitive) == Previous(members, patch[i].key, caseSensitive)
    ensures Brought(now, patch, caseSensitive) == Brought(members, patch, caseSensitive)
  {
    if patch != [] {
      hide Previous, Merge;
      assert Previous(now, patch[0].key, caseSensitive) == Previous(members, patch[0].key, caseSensitive);
      BroughtStays(members, now, patch[1..], caseSensitive);
    }
  }

  lemma BroughtFirst(members: Members, patch: Members, e: Entry<Value>, caseSensitive: bool)
    requires patch != [] && !patch[0].item.Null?
    requires e == Entry(patch[0].key, Merge(Previous(members, patch[0].key, caseSensitive), patch[0].item, caseSensitive))
    ensures Brought(members, patch, caseSensitive) == [e] + Brought(members, patch[1..], caseSensitive)
  {
    hide Merge, Previous;
  }

  lemma MergeStep(members: Members, whole: Value, patch: Members, caseSensitive: bool)
    requires whole.Object? && (forall e :: e in patch ==> e in whole.members) && patch != []
    ensures var name, item, rest := patch[0].key, patch[0].item, patch[1..];
            var left := WithoutMember(members, name, caseSensitive);
            MergeMembers(members, whole, patch, caseSensitive)
            == if item.Null? then MergeMembers(left, whole, rest, caseSensitive)
               else
                 MergeMembers(left + [Entry(name, Merge(Previous(members, name, caseSensitive), item, caseSensitive))],
                              whole, rest, caseSensitive)
  {
    assert patch[0] in whole.members;
    hide Merge, WithoutMember, CompareStrings;
  }

  /** Merging into an object: its untouched members in their order, then what the patch brings, in its order. */
  lemma {:induction false} MergesInOrder(members: Members, whole: Value, patch: Members, caseSensitive: bool)
    requires whole.Object? && forall e :: e in patch ==> e in whole.members
    requires Apart(members, caseSensitive) && Apart(patch, caseSensitive)
    ensures MergeMembers(members, whole, patch, caseSensitive)
         == Untouched(members, patch, caseSensitive) + Brought(members, patch, caseSensitive)
    decreases |patch|
  {
    if patch == [] {
      UntouchedNone(members, caseSensitive);
    } else {
      var name, item, rest := patch[0].key, patch[0].item, patch[1..];
      MergeStep(members, whole, patch, caseSensitive);
      hide Fold, WithoutMember, Apart, Names, MergeMembers, Merge, Previous;
      var left := WithoutMember(members, name, caseSensitive);
      LeftApart(members, name, caseSensitive);
      RestApart(patch, caseSensitive);
      UntouchedWithout(members, patch, caseSensitive);
      if item.Null? {
        MergesInOrder(left, whole, rest, caseSensitive);
        RestStays(members, Entry(name, item), left, rest, caseSensitive);
        assert [] + Brought(members, rest, caseSensitive) == Brought(members, rest, caseSensitive);
      } else {
        var e := Entry(name, Merge(Previous(members, name, caseSensitive), item, caseSensitive));
        ApartBehind(left, e, caseSensitive);
        MergesInOrder(left + [e], whole, rest, caseSensitive);
        UntouchedBehind(left, e, rest, caseSensitive);
        RestStays(members, e, left + [e], rest, caseSensitive);
        BroughtFirst(members, patch, e, caseSensitive);
        hide Untouched, Brought;
        Associative(Untouched(members, patch, caseSensitive), [e], Brought(members, rest, caseSensitive));
      }
    }
  }

  lemma IndexIs(members: Members, name: string, caseSensitive: bool)
    ensures var i := IndexOf(members, name, caseSensitive);
            if i < |members| then Fold(members[i].key, caseSensitive) == Fold(name, caseSensitive)
            else !Names(members, name, caseSensitive)
  {
    forall j | 0 <= j < |members|
      ensures CompareStrings(name, members[j].key, caseSensitive) == 0
              <==> Fold(name, caseSensitive) == Fold(members[j].key, caseSensitive)
    {
      CompareZero(name, members[j].key, caseSensitive);
    }
    hide Fold, CompareStrings;
  }

  lemma LeftApart(members: Members, name: string, caseSensitive: bool)
    requires Apart(members, caseSensitive)
    ensures var left := WithoutMember(members, name, caseSensitive);
            Apart(left, caseSensitive) && !Names(left, name, caseSensitive)
  {
    IndexIs(members, name, caseSensitive);
    hide Fold, CompareStrings, Remove;
  }

  lemma RestApart(patch: Members, caseSensitive: bool)
    requires patch != [] && Apart(patch, caseSensitive)
    ensures Apart(patch[1..], caseSensitive) && !Names(patch[1..], patch[0].key, caseSensitive)
  {}

  lemma ApartBehind(left: Members, e: Entry<Value>, caseSensitive: bool)
    requires Apart(left, caseSensitive) && !Names(left, e.key, caseSensitive)
    ensures Apart(left + [e], caseSensitive)
  {}

  lemma RestStays(members: Members, e: Entry<Value>, now: Members, rest: Members, caseSensitive: bool)
    requires !Names(rest, e.key, caseSensitive)
    requires var left := WithoutMember(members, e.key, caseSensitive); now == left || now == left + [e]
    ensures Brought(now, rest, caseSensitive) == Brought(members, rest, caseSensitive)
  {
    forall i | 0 <= i < |rest|
      ensures Previous(now, rest[i].key, caseSensitive) == Previous(members, rest[i].key, caseSensitive)
    {
      PreviousStays(members, e, rest[i].key, caseSensitive);
    }
    BroughtStays(members, now, rest, caseSensitive);
  }

  // ---- Generating a patch -------------------------------------------------------------------

  predicate Ascending(members: Members) {
    forall i, j :: 0 <= i < j < |members| ==> CompareStrings(members[i].key, members[j].key, true) < 0
  }

  /** The name comes before every name of the list. */
  predicate Before(name: string, members: Members) {
    forall i :: 0 <= i < |members| ==> CompareStrings(name, members[i].key, true) < 0
  }

  ghost predicate NamedByOne(r: Members, from: Members, to: Members) {
    forall i :: 0 <= i < |r| ==> HasKey(from, r[i].key) || HasKey(to, r[i].key)
  }

  lemma AscendingTail(members: Members)
    requires members != [] && Ascending(members)
    ensures Ascending(members[1..]) && Before(members[0].key, members[1..])
  {
    hide CompareStrings;
  }

  /** What comes before a head comes before the whole list. */
  lemma BeforeAll(name: string, members: Members)
    requires Ascending(members) && (members != [] ==> CompareStrings(name, members[0].key, true) <= 0)
    ensures Before(name, members[if members == [] then 0 else 1..])
    ensures members != [] && CompareStrings(name, members[0].key, true) < 0 ==> Before(name, members)
  {
    forall i | 0 < i < |members| ensures CompareStrings(name, members[i].key, true) < 0 {
      CompareTransitive(name, members[0].key, members[i].key, true);
    }
    hide CompareStrings;
  }

  /** A new head in front of a sorted list whose names come from two lists behind it. */
  lemma InFront(e: Entry<Value>, r: Members, from: Members, to: Members)
    requires Ascending(r) && NamedByOne(r, from, to) && Before(e.key, from) && Before(e.key, to)
    ensures Ascending([e] + r)
  {
    hide CompareStrings;
    forall i | 0 <= i < |r| ensures CompareStrings(e.key, r[i].key, true) < 0 {
      assert HasKey(from, r[i].key) || HasKey(to, r[i].key);
    }
  }

  lemma NamedByMore(r: Members, e: Entry<Value>, from: Members, to: Members, moreFrom: Members, moreTo: Members)
    requires NamedByOne(r, from, to)
    requires from == moreFrom || (moreFrom != [] && from == moreFrom[1..])
    requires to == moreTo || (moreTo != [] && to == moreTo[1..])
    ensures NamedByOne(r, moreFrom, moreTo)
    ensures HasKey(moreFrom, e.key) || HasKey(moreTo, e.key) ==> NamedByOne([e] + r, moreFrom, moreTo)
  {
    forall i | 0 <= i < |r| ensures HasKey(moreFrom, r[i].key) || HasKey(moreTo, r[i].key) {
      if HasKey(from, r[i].key) {
        var j :| 0 <= j < |from| && from[j].key == r[i].key;
        assert from == moreFrom || from[j] == moreFrom[j + 1];
      } else {
        var j :| 0 <= j < |to| && to[j].key == r[i].key;
        assert to == moreTo || to[j] == moreTo[j + 1];
      }
    }
  }

  /** A generated patch has its members in the order of `strcmp`, and names nothing that neither list names. */
  lemma {:induction false} GeneratedInOrder(whole: Value, from: Members, to: Members, caseSensitive: bool)
    requires whole.Object? && forall e :: e in from ==> e in whole.members
    requires Ascending(from) && Ascending(to)
    ensures var r := GenerateMembers(whole, from, to, caseSensitive); Ascending(r) && NamedByOne(r, from, to)
    decreases |from| + |to|
  {
    if from != [] || to != [] {
      var key, restFrom, restTo := FirstName(from, to);
      var e := GenerateStep(whole, from, to, caseSensitive);
      var r := GenerateMembers(whole, restFrom, restTo, caseSensitive);
      GeneratedInOrder(whole, restFrom, restTo, caseSensitive);
      hide GenerateMembers, CompareStrings, Diff, Ascending;
      NamedByMore(r, e, restFrom, restTo, from, to);
      InFront(e, r, restFrom, restTo);
    }
  }

  function Diff(from: Members, to: Members): int {
    if from == [] then 1 else if to == [] then -1 else CompareStrings(from[0].key, to[0].key, true)
  }

  /** The smaller of the two first names; it comes before all that is left of both lists. */
  lemma FirstName(from: Members, to: Members) returns (key: string, restFrom: Members, restTo: Members)
    requires Ascending(from) && Ascending(to) && (from != [] || to != [])
    ensures key == (if Diff(from, to) <= 0 && from != [] then from[0].key else if to != [] then to[0].key else "")
    ensures restFrom == (if Diff(from, to) <= 0 && from != [] then from[1..] else from)
    ensures restTo == (if Diff(from, to) >= 0 && to != [] then to[1..] else to)
    ensures Ascending(restFrom) && Ascending(restTo) && Before(key, restFrom) && Before(key, restTo)
    ensures HasKey(from, key) || HasKey(to, key)
    ensures |restFrom| + |restTo| < |from| + |to| && forall e :: e in restFrom ==> e in from
  {
    if from != [] { AscendingTail(from); }
    if to != [] { AscendingTail(to); }
    if from != [] && to != [] {
      CompareFlips(from[0].key, to[0].key, true);
      if Diff(from, to) <= 0 { BeforeAll(from[0].key, to); } else { BeforeAll(to[0].key, from); }
    }
    hide CompareStrings, Ascending;
    if Diff(from, to) <= 0 && from != [] {
      key, restFrom := from[0].key, from[1..];
    } else {
      key, restFrom := to[0].key, from;
    }
    restTo := if Diff(from, to) >= 0 && to != [] then to[1..] else to;
  }

  lemma SameName(a: string, b: string)
    requires CompareStrings(a, b, true) == 0
    ensures a == b
  {
    CompareZero(a, b, true);
    FoldIsIdentity(a);
    FoldIsIdentity(b);
  }

  /** One step of the walk generates one member, under the smaller name, or none. */
  lemma GenerateStep(whole: Value, from: Members, to: Members, caseSensitive: bool) returns (e: Entry<Value>)
    requires whole.Object? && (forall e :: e in from ==> e in whole.members) && (from != [] || to != [])
    ensures e.key == (if Diff(from, to) <= 0 && from != [] then from[0].key else if to != [] then to[0].key else "")
    ensures var restFrom := if Diff(from, to) <= 0 && from != [] then from[1..] else from;
            var restTo := if Diff(from, to) >= 0 && to != [] then to[1..] else to;
            var r := GenerateMembers(whole, restFrom, restTo, caseSensitive);
            GenerateMembers(whole, from, to, caseSensitive) == r || GenerateMembers(whole, from, to, caseSensitive) == [e] + r
  {
    hide CompareStrings, Generate, CompareJson;
    if Diff(from, to) < 0 {
      e := Entry(from[0].key, Null);
    } else if Diff(from, to) > 0 {
      e := Entry(to[0].key, to[0].item);
    } else {
      assert from[0] in whole.members;
      var change := if CompareJson(from[0].item, to[0].item, caseSensitive) then None
                    else Generate(from[0].item, to[0].item, false);
      e := Entry(from[0].key, if change.Some? then change.value else Null);
      SameName(from[0].key, to[0].key);
      var r := GenerateMembers(whole, from[1..], to[1..], caseSensitive);
      assert [] + r == r;
    }
  }
}

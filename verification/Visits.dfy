/**
 What `compare_json` does to the tree it looks at: every object it reaches is sorted, up to the first
 difference. The comparison is a predicate in `Compare`; here is the tree it leaves behind.
 */
module Visits {
  import opened Compare
  import opened CString
  import opened Json
  import opened KeySort

  /** The first tree after comparing it with the second. */
  function Visited(a: Value, b: Value, caseSensitive: bool): (r: Value)
    ensures Kind(r) == Kind(a)
    decreases a, 1
  {
    if Kind(a) != Kind(b) then a
    else
      match a
      case Array(items) => Array(VisitedItems(items, b.items, caseSensitive))
      case Object(members) =>
        SortMembers(members, caseSensitive);
        Object(VisitedMembers(a, Sort(members, caseSensitive), Sort(b.members, caseSensitive), caseSensitive))
      case _ => a
  }

  function VisitedItems(a: seq<Value>, b: seq<Value>, caseSensitive: bool): (r: seq<Value>)
    ensures |r| == |a|
    decreases a, 0
  {
    if a == [] || b == [] then a
    else
      [Visited(a[0], b[0], caseSensitive)]
      + if CompareJson(a[0], b[0], caseSensitive) then VisitedItems(a[1..], b[1..], caseSensitive) else a[1..]
  }

  /** The walk over two sorted member lists. */
  function VisitedMembers(ghost whole: Value, a: Members, b: Members, caseSensitive: bool): (r: Members)
    requires whole.Object? && forall e :: e in a ==> e in whole.members
    ensures |r| == |a| && forall i :: 0 <= i < |a| ==> r[i].key == a[i].key
    decreases whole, 0, |a|
  {
    if a == [] || b == [] || CompareStrings(a[0].key, b[0].key, caseSensitive) != 0 then a
    else
      assert a[0] in whole.members;
      [Entry(a[0].key, Visited(a[0].item, b[0].item, caseSensitive))]
      + if CompareJson(a[0].item, b[0].item, caseSensitive) then VisitedMembers(whole, a[1..], b[1..], caseSensitive) else a[1..]
  }

  // ---- The meaning stays --------------------------------------------------------------------

  lemma {:induction false} VisitedMeans(a: Value, b: Value, caseSensitive: bool)
    requires Distinct(a)
    ensures Distinct(Visited(a, b, caseSensitive))
    ensures Denote(Visited(a, b, caseSensitive)) == Denote(a)
    decreases a, 1
  {
    if Kind(a) == Kind(b) {
      match a
      case Array(items) => VisitedItemsMean(items, b.items, caseSensitive);
      case Object(members) =>
        var s := Sort(members, caseSensitive);
        SortMembers(members, caseSensitive);
        SortKeepsMeaning(members, caseSensitive);
        forall i | 0 <= i < |s| ensures Distinct(s[i].item) {
          assert s[i] in members;
        }
        VisitedMembersMean(a, s, Sort(b.members, caseSensitive), caseSensitive);
      case _ =>
    }
  }

  lemma {:induction false} VisitedItemsMean(a: seq<Value>, b: seq<Value>, caseSensitive: bool)
    requires forall i :: 0 <= i < |a| ==> Distinct(a[i])
    ensures var r := VisitedItems(a, b, caseSensitive);
            (forall i :: 0 <= i < |r| ==> Distinct(r[i])) && DenoteItems(r) == DenoteItems(a)
    decreases a, 0
  {
    if a != [] && b != [] {
      VisitedMeans(a[0], b[0], caseSensitive);
      VisitedItemsMean(a[1..], b[1..], caseSensitive);
      EachItem(VisitedItems(a, b, caseSensitive), a, b, caseSensitive);
    }
  }

  /** One item of the walk and the rest. */
  lemma EachItem(r: seq<Value>, a: seq<Value>, b: seq<Value>, caseSensitive: bool)
    requires a != [] && b != [] && r == VisitedItems(a, b, caseSensitive)
    ensures r[0] == Visited(a[0], b[0], caseSensitive)
    ensures r[1..] == if CompareJson(a[0], b[0], caseSensitive) then VisitedItems(a[1..], b[1..], caseSensitive) else a[1..]
    ensures forall i {:trigger r[i]} :: 0 < i < |r| ==> r[i] == r[1..][i - 1]
  {}

  lemma EachMember(r: Members, whole: Value, a: Members, b: Members, caseSensitive: bool)
    requires whole.Object? && (forall e :: e in a ==> e in whole.members)
    requires a != [] && b != [] && CompareStrings(a[0].key, b[0].key, caseSensitive) == 0
    requires r == VisitedMembers(whole, a, b, caseSensitive)
    ensures r[0].item == Visited(a[0].item, b[0].item, caseSensitive)
    ensures r[1..] == if CompareJson(a[0].item, b[0].item, caseSensitive)
                      then VisitedMembers(whole, a[1..], b[1..], caseSensitive) else a[1..]
    ensures forall i {:trigger r[i]} :: 0 < i < |r| ==> r[i] == r[1..][i - 1]
  {}

  /** Same keys, items of the same meaning: the same map. */
  lemma {:induction false} SameMap(r: Members, a: Members)
    requires |r| == |a|
    requires forall i :: 0 <= i < |a| ==> r[i].key == a[i].key && Denote(r[i].item) == Denote(a[i].item)
    ensures DenoteMembers(r) == DenoteMembers(a)
  {
    if a != [] { SameMap(r[1..], a[1..]); }
  }

  lemma {:induction false} VisitedMembersMean(whole: Value, a: Members, b: Members, caseSensitive: bool)
    requires whole.Object? && (forall e :: e in a ==> e in whole.members)
    requires DistinctKeys(a) && forall i :: 0 <= i < |a| ==> Distinct(a[i].item)
    ensures var r := VisitedMembers(whole, a, b, caseSensitive);
            && DistinctKeys(r) && (forall i :: 0 <= i < |r| ==> Distinct(r[i].item))
            && DenoteMembers(r) == DenoteMembers(a)
    decreases whole, 0, |a| + 1
  {
    VisitedMembersEach(whole, a, b, caseSensitive);
    SameMap(VisitedMembers(whole, a, b, caseSensitive), a);
  }

  lemma {:induction false} VisitedMembersEach(whole: Value, a: Members, b: Members, caseSensitive: bool)
    requires whole.Object? && (forall e :: e in a ==> e in whole.members)
    requires forall i :: 0 <= i < |a| ==> Distinct(a[i].item)
    ensures var r := VisitedMembers(whole, a, b, caseSensitive);
            forall i :: 0 <= i < |r| ==> Distinct(r[i].item) && Denote(r[i].item) == Denote(a[i].item)
    decreases whole, 0, |a|
  {
    if a != [] && b != [] && CompareStrings(a[0].key, b[0].key, caseSensitive) == 0 {
      assert a[0] in whole.members;
      VisitedMeans(a[0].item, b[0].item, caseSensitive);
      VisitedMembersEach(whole, a[1..], b[1..], caseSensitive);
    }
  }

  // ---- The tree stays within the domain -----------------------------------------------------

  ghost predicate AllTame(items: seq<Value>, keys: iset<string>) {
    forall i :: 0 <= i < |items| ==> Tame(items[i], keys)
  }

  ghost predicate ItemsTame(members: Members, keys: iset<string>) {
    forall i :: 0 <= i < |members| ==> Tame(members[i].item, keys)
  }

  lemma TameParts(v: Value, keys: iset<string>)
    ensures v.Array? ==> (Tame(v, keys) <==> |v.items| < SIZE_LIMIT && AllTame(v.items, keys))
    ensures v.Object? ==> (Tame(v, keys) <==> TameMembers(v.members, keys))
  {}

  lemma {:induction false} VisitedTame(a: Value, b: Value, keys: iset<string>, caseSensitive: bool)
    requires Tame(a, keys)
    ensures Tame(Visited(a, b, caseSensitive), keys)
    decreases a, 1
  {
    var r := Visited(a, b, caseSensitive);
    TameParts(a, keys);
    TameParts(r, keys);
    hide Tame;
    if Kind(a) == Kind(b) {
      match a
      case Array(items) => VisitedItemsTame(items, b.items, keys, caseSensitive);
      case Object(members) =>
        var s, t := Sort(members, caseSensitive), Sort(b.members, caseSensitive);
        SortMembers(members, caseSensitive);
        SortedTame(members, s, keys, caseSensitive);
        VisitedMembersTame(a, s, t, keys, caseSensitive);
        TameAgain(s, r.members, keys);
      case _ =>
    }
  }

  lemma SortedTame(members: Members, s: Members, keys: iset<string>, caseSensitive: bool)
    requires TameMembers(members, keys) && s == Sort(members, caseSensitive)
    ensures TameMembers(s, keys) && ItemsTame(s, keys)
  {
    SortMembers(members, caseSensitive);
    SortKeepsDistinct(members, caseSensitive);
    hide Sort, Tame, DistinctKeys;
    forall i | 0 <= i < |s| ensures s[i].key in keys && Tame(s[i].item, keys) {
      assert s[i] in members;
    }
  }

  lemma TameAgain(s: Members, r: Members, keys: iset<string>)
    requires TameMembers(s, keys) && ItemsTame(r, keys) && |r| == |s|
    requires forall i :: 0 <= i < |r| ==> r[i].key == s[i].key
    ensures TameMembers(r, keys)
  {
    hide Tame;
  }

  lemma {:induction false} VisitedItemsTame(a: seq<Value>, b: seq<Value>, keys: iset<string>, caseSensitive: bool)
    requires AllTame(a, keys)
    ensures AllTame(VisitedItems(a, b, caseSensitive), keys)
    decreases a, 0
  {
    hide Tame;
    if a != [] && b != [] {
      VisitedTame(a[0], b[0], keys, caseSensitive);
      VisitedItemsTame(a[1..], b[1..], keys, caseSensitive);
      EachItem(VisitedItems(a, b, caseSensitive), a, b, caseSensitive);
    }
  }

  lemma {:induction false} VisitedMembersTame(whole: Value, a: Members, b: Members, keys: iset<string>, caseSensitive: bool)
    requires whole.Object? && (forall e :: e in a ==> e in whole.members)
    requires ItemsTame(a, keys)
    ensures ItemsTame(VisitedMembers(whole, a, b, caseSensitive), keys)
    decreases whole, 0, |a|
  {
    hide Tame;
    if a != [] && b != [] && CompareStrings(a[0].key, b[0].key, caseSensitive) == 0 {
      assert a[0] in whole.members;
      VisitedTame(a[0].item, b[0].item, keys, caseSensitive);
      VisitedMembersTame(whole, a[1..], b[1..], keys, caseSensitive);
      EachMember(VisitedMembers(whole, a, b, caseSensitive), whole, a, b, caseSensitive);
    }
  }

  // ---- When the tree stays as it is ---------------------------------------------------------

  /** The comparison reaches an object whose members are not in sorted order. */
  predicate Reorders(a: Value, b: Value, caseSensitive: bool)
    decreases a, 1
  {
    Kind(a) == Kind(b) &&
    match a
    case Array(items) => ReordersItems(items, b.items, caseSensitive)
    case Object(members) =>
      Sort(members, caseSensitive) != members ||
      ReordersMembers(a, members, Sort(b.members, caseSensitive), caseSensitive)
    case _ => false
  }

  predicate ReordersItems(a: seq<Value>, b: seq<Value>, caseSensitive: bool)
    decreases a, 0
  {
    a != [] && b != [] &&
    (Reorders(a[0], b[0], caseSensitive)
     || (CompareJson(a[0], b[0], caseSensitive) && ReordersItems(a[1..], b[1..], caseSensitive)))
  }

  predicate ReordersMembers(ghost whole: Value, a: Members, b: Members, caseSensitive: bool)
    requires whole.Object? && forall e :: e in a ==> e in whole.members
    decreases whole, 0, |a|
  {
    a != [] && b != [] && CompareStrings(a[0].key, b[0].key, caseSensitive) == 0 &&
    assert a[0] in whole.members;
    (Reorders(a[0].item, b[0].item, caseSensitive)
     || (CompareJson(a[0].item, b[0].item, caseSensitive) && ReordersMembers(whole, a[1..], b[1..], caseSensitive)))
  }

  /** Otherwise the comparison leaves the tree alone, repeated keys or not. */
  lemma {:induction false} VisitedStays(a: Value, b: Value, caseSensitive: bool)
    requires !Reorders(a, b, caseSensitive)
    ensures Visited(a, b, caseSensitive) == a
    decreases a, 1
  {
    if Kind(a) == Kind(b) {
      match a
      case Array(items) => VisitedItemsStay(items, b.items, caseSensitive);
      case Object(members) =>
        SortMembers(members, caseSensitive);
        VisitedMembersStay(a, members, Sort(b.members, caseSensitive), caseSensitive);
      case _ =>
    }
  }

  lemma {:induction false} VisitedItemsStay(a: seq<Value>, b: seq<Value>, caseSensitive: bool)
    requires !ReordersItems(a, b, caseSensitive)
    ensures VisitedItems(a, b, caseSensitive) == a
    decreases a, 0
  {
    if a != [] && b != [] {
      VisitedStays(a[0], b[0], caseSensitive);
      if CompareJson(a[0], b[0], caseSensitive) { VisitedItemsStay(a[1..], b[1..], caseSensitive); }
      assert a == [a[0]] + a[1..];
    }
  }

  lemma {:induction false} VisitedMembersStay(whole: Value, a: Members, b: Members, caseSensitive: bool)
    requires whole.Object? && (forall e :: e in a ==> e in whole.members)
    requires !ReordersMembers(whole, a, b, caseSensitive)
    ensures VisitedMembers(whole, a, b, caseSensitive) == a
    decreases whole, 0, |a|
  {
    if a != [] && b != [] && CompareStrings(a[0].key, b[0].key, caseSensitive) == 0 {
      assert a[0] in whole.members;
      VisitedStays(a[0].item, b[0].item, caseSensitive);
      if CompareJson(a[0].item, b[0].item, caseSensitive) { VisitedMembersStay(whole, a[1..], b[1..], caseSensitive); }
      assert a == [a[0]] + a[1..];
    }
  }

  /** With distinct keys, it changes the tree exactly when it reaches an unsorted object. */
  lemma {:induction false} VisitedChanges(a: Value, b: Value, caseSensitive: bool)
    requires Distinct(a)
    ensures Visited(a, b, caseSensitive) != a <==> Reorders(a, b, caseSensitive)
    decreases a, 1
  {
    if !Reorders(a, b, caseSensitive) {
      VisitedStays(a, b, caseSensitive);
    } else {
      match a
      case Array(items) => VisitedItemsChange(items, b.items, caseSensitive);
      case Object(members) =>
        var s := Sort(members, caseSensitive);
        SortMembers(members, caseSensitive);
        if s == members {
          VisitedMembersChange(a, s, Sort(b.members, caseSensitive), caseSensitive);
        } else {
          SortedDiffers(members, VisitedMembers(a, s, Sort(b.members, caseSensitive), caseSensitive), caseSensitive);
        }
    }
  }

  lemma {:induction false} VisitedItemsChange(a: seq<Value>, b: seq<Value>, caseSensitive: bool)
    requires ReordersItems(a, b, caseSensitive) && forall i :: 0 <= i < |a| ==> Distinct(a[i])
    ensures VisitedItems(a, b, caseSensitive) != a
    decreases a, 0
  {
    var r := VisitedItems(a, b, caseSensitive);
    VisitedChanges(a[0], b[0], caseSensitive);
    if !Reorders(a[0], b[0], caseSensitive) {
      VisitedItemsChange(a[1..], b[1..], caseSensitive);
      assert r[1..] != a[1..];
    }
  }

  lemma {:induction false} VisitedMembersChange(whole: Value, a: Members, b: Members, caseSensitive: bool)
    requires whole.Object? && (forall e :: e in a ==> e in whole.members)
    requires ReordersMembers(whole, a, b, caseSensitive) && forall i :: 0 <= i < |a| ==> Distinct(a[i].item)
    ensures VisitedMembers(whole, a, b, caseSensitive) != a
    decreases whole, 0, |a|
  {
    var r := VisitedMembers(whole, a, b, caseSensitive);
    assert a[0] in whole.members;
    VisitedChanges(a[0].item, b[0].item, caseSensitive);
    if !Reorders(a[0].item, b[0].item, caseSensitive) {
      VisitedMembersChange(whole, a[1..], b[1..], caseSensitive);
      assert r[1..] != a[1..];
    }
  }

  /** The keys alone tell that a list of distinct keys is not sorted. */
  lemma SortedDiffers(members: Members, visited: Members, caseSensitive: bool)
    requires DistinctKeys(members)
    requires var s := Sort(members, caseSensitive);
             s != members && |visited| == |s| && forall i :: 0 <= i < |s| ==> visited[i].key == s[i].key
    ensures visited != members
  {
    var s := Sort(members, caseSensitive);
    SortMembers(members, caseSensitive);
    var i :| 0 <= i < |s| && s[i] != members[i];
    assert s[i] in members;
    var j :| 0 <= j < |members| && members[j] == s[i];
    assert visited[i].key == members[j].key != members[i].key;
  }
}

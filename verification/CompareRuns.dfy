/**
 `compare_json` as it runs on a tree with recorded tails: its loops compute the outcome and, in the same
 walk, the tree they leave behind.
 */
module CompareRuns {
  import opened Compare
  import opened CString
  import opened Json
  import opened KeySort
  import opened Tails
  import opened Trees

  /** One item of the walk over two arrays. */
  lemma ItemStep(done: seq<Tree>, a: seq<Tree>, b: seq<Value>, r: Tree, caseSensitive: bool)
    requires a != [] && b != [] && r == Compared(a[0], b[0], caseSensitive)
    ensures done + ComparedItems(a, b, caseSensitive) ==
              done + [r] + if CompareJson(Plain(a[0]), b[0], caseSensitive)
                           then ComparedItems(a[1..], b[1..], caseSensitive) else a[1..]
  {}

  /** One member of the walk over two sorted objects. */
  lemma MemberStep(done: seq<Entry<Tree>>, whole: Tree, a: seq<Entry<Tree>>, b: Members, r: Tree, caseSensitive: bool)
    requires whole.Record? && (forall e :: e in a ==> e in whole.members)
    requires a != [] && b != [] && CompareStrings(a[0].key, b[0].key, caseSensitive) == 0
    requires r == Compared(a[0].item, b[0].item, caseSensitive)
    ensures done + ComparedMembers(whole, a, b, caseSensitive) ==
              done + [Entry(a[0].key, r)]
              + if CompareJson(Plain(a[0].item), b[0].item, caseSensitive)
                then ComparedMembers(whole, a[1..], b[1..], caseSensitive) else a[1..]
  {}

  /** `compare_json`. */
  method CompareInPlace(t: Tree, v: Value, caseSensitive: bool) returns (same: bool, r: Tree)
    ensures same == CompareJson(Plain(t), v, caseSensitive)
    ensures r == Compared(t, v, caseSensitive)
    decreases t, 1
  {
    r := t;
    if Kind(Plain(t)) != Kind(v) { return false, r; }
    match t {
      case Atom(value) =>
        match value {
          case Number(num) => same := ValueInt(num) == ValueInt(v.num) && CompareDouble(num, v.num);
          case String(text) => same := text == v.text;
          case _ => same := true;
        }
      case List(_) => same, r := CompareItems(t, v, caseSensitive);
      case Record(_, _) => same, r := CompareMembers(t, v, caseSensitive);
    }
  }

  /** The walk over two arrays: what is done, what is left, and what will come of it. */
  ghost predicate ItemsLeft(t: Tree, v: Value, done: seq<Tree>, i: nat, caseSensitive: bool)
    requires t.List? && v.Array?
  {
    && i <= |t.items| && i <= |v.items|
    && List(done + ComparedItems(t.items[i..], v.items[i..], caseSensitive)) == Compared(t, v, caseSensitive)
    && forall j :: 0 <= j < i ==> CompareJson(Plain(t.items[j]), v.items[j], caseSensitive)
  }

  lemma ItemsStart(t: Tree, v: Value, caseSensitive: bool)
    requires t.List? && v.Array?
    ensures ItemsLeft(t, v, [], 0, caseSensitive)
  {
    assert t.items[0..] == t.items && v.items[0..] == v.items;
  }

  lemma ItemsGoOn(t: Tree, v: Value, done: seq<Tree>, i: nat, r: Tree, caseSensitive: bool)
    requires t.List? && v.Array? && ItemsLeft(t, v, done, i, caseSensitive)
    requires i < |t.items| && i < |v.items| && r == Compared(t.items[i], v.items[i], caseSensitive)
    ensures if CompareJson(Plain(t.items[i]), v.items[i], caseSensitive)
            then ItemsLeft(t, v, done + [r], i + 1, caseSensitive)
            else Compared(t, v, caseSensitive) == List(done + [r] + t.items[i + 1..]) && !CompareJson(Plain(t), v, caseSensitive)
  {
    assert t.items[i..][1..] == t.items[i + 1..] && v.items[i..][1..] == v.items[i + 1..];
    ItemStep(done, t.items[i..], v.items[i..], r, caseSensitive);
    if !CompareJson(Plain(t.items[i]), v.items[i], caseSensitive) {
      assert !CompareJson(PlainItems(t.items)[i], v.items[i], caseSensitive);
    }
    hide Compared, ComparedItems;
  }

  lemma ItemsEnd(t: Tree, v: Value, done: seq<Tree>, i: nat, caseSensitive: bool)
    requires t.List? && v.Array? && ItemsLeft(t, v, done, i, caseSensitive)
    requires i == |t.items| || i == |v.items|
    ensures Compared(t, v, caseSensitive) == List(done + t.items[i..])
    ensures CompareJson(Plain(t), v, caseSensitive) <==> i == |t.items| && i == |v.items|
  {
    assert ComparedItems(t.items[i..], v.items[i..], caseSensitive) == t.items[i..];
    hide Compared, ComparedItems;
  }

  /** The loop over two arrays. */
  method CompareItems(t: Tree, v: Value, caseSensitive: bool) returns (same: bool, r: Tree)
    requires t.List? && v.Array?
    ensures same == CompareJson(Plain(t), v, caseSensitive)
    ensures r == Compared(t, v, caseSensitive)
    decreases t, 0
  {
    hide Compared, CompareJson, Plain, ItemsLeft;
    var done: seq<Tree> := [];
    var i := 0;
    ItemsStart(t, v, caseSensitive);
    while i < |t.items| && i < |v.items|
      invariant i <= |t.items| && i <= |v.items| && ItemsLeft(t, v, done, i, caseSensitive)
    {
      var item;
      same, item := CompareInPlace(t.items[i], v.items[i], caseSensitive);
      ItemsGoOn(t, v, done, i, item, caseSensitive);
      done := done + [item];
      i := i + 1;
      if !same {
        return false, List(done + t.items[i..]);
      }
    }
    ItemsEnd(t, v, done, i, caseSensitive);
    return i == |t.items| && i == |v.items|, List(done + t.items[i..]);
  }

  /** The walk over two sorted objects. */
  ghost predicate MembersLeft(t: Tree, v: Value, done: seq<Entry<Tree>>, s: seq<Entry<Tree>>, b: Members, caseSensitive: bool)
    requires t.Record? && v.Object?
  {
    && (forall e :: e in s ==> e in t.members)
    && (forall e :: e in PlainMembers(s) ==> e in PlainMembers(t.members))
    && Compared(t, v, caseSensitive) ==
         Record(done + ComparedMembers(t, s, b, caseSensitive), SortedList(Tailed(t.members, t.tail), caseSensitive).tail)
    && (CompareJson(Plain(t), v, caseSensitive) <==> CompareInStep(Plain(t), PlainMembers(s), b, caseSensitive))
  }

  lemma NothingDone<T>(s: seq<T>)
    ensures [] + s == s
  {}

  lemma MembersStart(t: Tree, v: Value, s: seq<Entry<Tree>>, caseSensitive: bool)
    requires t.Record? && v.Object? && s == Sort(t.members, caseSensitive)
    ensures MembersLeft(t, v, [], s, Sort(v.members, caseSensitive), caseSensitive)
  {
    hide Sort, SortedList, ComparedMembers, CompareInStep, Compared, CompareJson, Plain;
    SortedWalk(t, v, s, caseSensitive);
    NothingDone(ComparedMembers(t, s, Sort(v.members, caseSensitive), caseSensitive));
  }

  lemma MembersGoOn(t: Tree, v: Value, done: seq<Entry<Tree>>, s: seq<Entry<Tree>>, b: Members, r: Tree, caseSensitive: bool)
    requires t.Record? && v.Object? && MembersLeft(t, v, done, s, b, caseSensitive)
    requires s != [] && b != [] && CompareStrings(s[0].key, b[0].key, caseSensitive) == 0
    requires r == Compared(s[0].item, b[0].item, caseSensitive)
    ensures if CompareJson(Plain(s[0].item), b[0].item, caseSensitive)
            then MembersLeft(t, v, done + [Entry(s[0].key, r)], s[1..], b[1..], caseSensitive)
            else Compared(t, v, caseSensitive) == Record(done + [Entry(s[0].key, r)] + s[1..],
                                                         SortedList(Tailed(t.members, t.tail), caseSensitive).tail)
                 && !CompareJson(Plain(t), v, caseSensitive)
  {
    assert PlainMembers(s)[1..] == PlainMembers(s[1..]);
    assert forall e :: e in PlainMembers(s)[1..] ==> e in PlainMembers(s);
    MemberStep(done, t, s, b, r, caseSensitive);
    OutcomeStep(Plain(t), PlainMembers(s), b, caseSensitive);
    hide Compared, CompareJson, Plain, ComparedMembers, CompareInStep, SortedList, CompareStrings;
  }

  lemma MembersEnd(t: Tree, v: Value, done: seq<Entry<Tree>>, s: seq<Entry<Tree>>, b: Members, caseSensitive: bool)
    requires t.Record? && v.Object? && MembersLeft(t, v, done, s, b, caseSensitive)
    requires s == [] || b == [] || CompareStrings(s[0].key, b[0].key, caseSensitive) != 0
    ensures Compared(t, v, caseSensitive) == Record(done + s, SortedList(Tailed(t.members, t.tail), caseSensitive).tail)
    ensures CompareJson(Plain(t), v, caseSensitive) <==> s == [] && b == []
  {
    NoMemberLeft(t, s, b, caseSensitive);
    OutcomeStep(Plain(t), PlainMembers(s), b, caseSensitive);
    hide Compared, CompareJson, Plain, ComparedMembers, CompareInStep, SortedList, CompareStrings;
  }

  lemma NoMemberLeft(whole: Tree, a: seq<Entry<Tree>>, b: Members, caseSensitive: bool)
    requires whole.Record? && (forall e :: e in a ==> e in whole.members)
    requires a == [] || b == [] || CompareStrings(a[0].key, b[0].key, caseSensitive) != 0
    ensures ComparedMembers(whole, a, b, caseSensitive) == a
  {}

  /** The outcome of the walk over the members that are left. */
  lemma OutcomeStep(whole: Value, a: Members, b: Members, caseSensitive: bool)
    requires whole.Object? && forall e :: e in a ==> e in whole.members
    ensures CompareInStep(whole, a, b, caseSensitive) <==>
              if a == [] || b == [] then a == [] && b == []
              else
                && CompareStrings(a[0].key, b[0].key, caseSensitive) == 0
                && CompareJson(a[0].item, b[0].item, caseSensitive)
                && CompareInStep(whole, a[1..], b[1..], caseSensitive)
  {}

  lemma SortedWalk(t: Tree, v: Value, s: seq<Entry<Tree>>, caseSensitive: bool)
    requires t.Record? && v.Object? && s == Sort(t.members, caseSensitive)
    ensures (forall e :: e in s ==> e in t.members)
    ensures forall e :: e in PlainMembers(s) ==> e in PlainMembers(t.members)
    ensures CompareJson(Plain(t), v, caseSensitive) <==>
              CompareInStep(Plain(t), PlainMembers(s), Sort(v.members, caseSensitive), caseSensitive)
    ensures Compared(t, v, caseSensitive) ==
              Record(ComparedMembers(t, s, Sort(v.members, caseSensitive), caseSensitive),
                     SortedList(Tailed(t.members, t.tail), caseSensitive).tail)
  {
    ComparedUnfolds(t, v, caseSensitive);
    PlainSorted(t.members, caseSensitive);
    SortedFrom(PlainMembers(t.members), PlainMembers(s), caseSensitive);
    hide Sort, SortedList, ComparedMembers, CompareInStep;
  }

  /** The loop over two objects, both sorted first. */
  method CompareMembers(t: Tree, v: Value, caseSensitive: bool) returns (same: bool, r: Tree)
    requires t.Record? && v.Object?
    ensures same == CompareJson(Plain(t), v, caseSensitive)
    ensures r == Compared(t, v, caseSensitive)
    decreases t, 0
  {
    hide Compared, CompareJson, Plain, MembersLeft, Sort, SortedList, CompareStrings;
    var l := SortedList(Tailed(t.members, t.tail), caseSensitive);
    SortedListIs(Tailed(t.members, t.tail), caseSensitive);
    var done: seq<Entry<Tree>>, s, b := [], l.children, Sort(v.members, caseSensitive);
    MembersStart(t, v, s, caseSensitive);
    SortedFrom(t.members, s, caseSensitive);
    while s != [] && b != [] && CompareStrings(s[0].key, b[0].key, caseSensitive) == 0
      invariant forall e :: e in s ==> e in t.members
      invariant MembersLeft(t, v, done, s, b, caseSensitive)
      decreases |s|
    {
      assert s[0] in t.members;
      var item;
      same, item := CompareInPlace(s[0].item, b[0].item, caseSensitive);
      MembersGoOn(t, v, done, s, b, item, caseSensitive);
      done := done + [Entry(s[0].key, item)];
      s, b := s[1..], b[1..];
      if !same {
        return false, Record(done + s, l.tail);
      }
    }
    MembersEnd(t, v, done, s, b, caseSensitive);
    return s == [] && b == [], Record(done + s, l.tail);
  }
}

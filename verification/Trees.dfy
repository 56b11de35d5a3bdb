/**
 Trees whose objects remember the tail recorded in the head of their member list. A tree fresh from the
 parser or from `cJSON_Duplicate` has every record right; `compare_json` can change that.
 */
module Trees {
  import opened Compare
  import opened CString
  import opened Json
  import opened KeySort
  import opened Pointer
  import opened Tails
  import opened Visits

  type Scalar = v: Value | !v.Array? && !v.Object? witness Null

  datatype Tree = Atom(value: Scalar) | List(items: seq<Tree>) | Record(members: seq<Entry<Tree>>, tail: Tail)

  /** The tree without the records. */
  function Plain(t: Tree): Value
    decreases t, 0
  {
    match t
    case Atom(value) => value
    case List(items) => Array(PlainItems(items))
    case Record(members, _) => Object(PlainMembers(members))
  }

  function PlainItems(items: seq<Tree>): (r: seq<Value>)
    ensures |r| == |items|
    ensures forall i :: 0 <= i < |items| ==> r[i] == Plain(items[i])
    decreases items, 1
  {
    seq(|items|, i requires 0 <= i < |items| => Plain(items[i]))
  }

  function PlainMembers(members: seq<Entry<Tree>>): (r: Members)
    ensures |r| == |members|
    ensures forall i :: 0 <= i < |members| ==> r[i] == Entry(members[i].key, Plain(members[i].item))
    decreases members, 1
  {
    seq(|members|, i requires 0 <= i < |members| => Entry(members[i].key, Plain(members[i].item)))
  }

  /** Every record is right. */
  predicate Whole(t: Tree) {
    match t
    case Atom(_) => true
    case List(items) => forall i :: 0 <= i < |items| ==> Whole(items[i])
    case Record(members, tail) =>
      Complete(Tailed(members, tail)) && forall i :: 0 <= i < |members| ==> Whole(members[i].item)
  }

  /** A copy: the tree `cJSON_Duplicate` makes of `v`. */
  function Copied(v: Value): (t: Tree)
    ensures Plain(t) == v && Whole(t)
    decreases v
  {
    match v
    case Array(items) =>
      var copies := seq(|items|, i requires 0 <= i < |items| => Copied(items[i]));
      assert PlainItems(copies) == items;
      List(copies)
    case Object(members) =>
      var copies := seq(|members|, i requires 0 <= i < |members| => Entry(members[i].key, Copied(members[i].item)));
      assert PlainMembers(copies) == members;
      Record(copies, Fresh(copies).tail)
    case _ => Atom(v)
  }

  // ---- Nodes --------------------------------------------------------------------------------

  function ChildTree(t: Tree, i: nat): (c: Tree)
    requires i < ChildCount(Plain(t))
    ensures c < t && Plain(c) == Child(Plain(t), i)
    ensures Whole(t) ==> Whole(c)
  {
    match t
    case List(items) => items[i]
    case Record(members, _) => members[i].item
  }

  function TreeAt(t: Tree, a: Address): (r: Tree)
    requires IsNode(Plain(t), a)
    ensures Plain(r) == At(Plain(t), a)
    ensures Whole(t) ==> Whole(r)
    decreases |a|
  {
    if a == [] then t else TreeAt(ChildTree(t, a[0]), a[1..])
  }

  function PutChildTree(t: Tree, i: nat, w: Tree): (r: Tree)
    requires i < ChildCount(Plain(t))
    ensures Plain(r) == PutChild(Plain(t), i, Plain(w))
    ensures Whole(t) ==> (Whole(r) <==> Whole(w))
  {
    match t
    case List(items) =>
      assert PlainItems(items[i := w]) == PlainItems(items)[i := Plain(w)];
      assert items[i := w][i] == w;
      List(items[i := w])
    case Record(members, tail) =>
      var changed := members[i := Entry(members[i].key, w)];
      assert PlainMembers(changed) == PlainMembers(members)[i := Entry(members[i].key, Plain(w))];
      assert changed[i].item == w;
      Record(changed, tail)
  }

  /** The node at `a` overwritten by `w`. */
  function TreePut(t: Tree, a: Address, w: Tree): (r: Tree)
    requires IsNode(Plain(t), a)
    ensures Plain(r) == Put(Plain(t), a, Plain(w))
    ensures Whole(t) ==> (Whole(r) <==> Whole(w))
    decreases |a|
  {
    if a == [] then w else PutChildTree(t, a[0], TreePut(ChildTree(t, a[0]), a[1..], w))
  }

  // ---- Comparing ----------------------------------------------------------------------------

  lemma PlainSorted(members: seq<Entry<Tree>>, caseSensitive: bool)
    ensures PlainMembers(Sort(members, caseSensitive)) == Sort(PlainMembers(members), caseSensitive)
  {
    assert Keys(members) == Keys(PlainMembers(members));
    SortByOrder(members, caseSensitive);
    SortByOrder(PlainMembers(members), caseSensitive);
    hide Sort, Order;
  }

  /** The tree as `compare_json` leaves it. */
  function Compared(t: Tree, v: Value, caseSensitive: bool): (r: Tree)
    decreases t, 1
  {
    if Kind(Plain(t)) != Kind(v) then t
    else
      match t
      case Atom(_) => t
      case List(items) => List(ComparedItems(items, v.items, caseSensitive))
      case Record(members, tail) =>
        SortMembers(members, caseSensitive);
        Record(ComparedMembers(t, Sort(members, caseSensitive), Sort(v.members, caseSensitive), caseSensitive),
               SortedList(Tailed(members, tail), caseSensitive).tail)
  }

  function ComparedItems(a: seq<Tree>, b: seq<Value>, caseSensitive: bool): (r: seq<Tree>)
    ensures |r| == |a|
    decreases a, 0
  {
    if a == [] || b == [] then a
    else
      [Compared(a[0], b[0], caseSensitive)]
      + if CompareJson(Plain(a[0]), b[0], caseSensitive) then ComparedItems(a[1..], b[1..], caseSensitive) else a[1..]
  }

  function ComparedMembers(ghost whole: Tree, a: seq<Entry<Tree>>, b: Members, caseSensitive: bool): (r: seq<Entry<Tree>>)
    requires whole.Record? && forall e :: e in a ==> e in whole.members
    ensures |r| == |a|
    decreases whole, 0, |a|
  {
    if a == [] || b == [] || CompareStrings(a[0].key, b[0].key, caseSensitive) != 0 then a
    else
      assert a[0] in whole.members;
      [Entry(a[0].key, Compared(a[0].item, b[0].item, caseSensitive))]
      + if CompareJson(Plain(a[0].item), b[0].item, caseSensitive)
        then ComparedMembers(whole, a[1..], b[1..], caseSensitive) else a[1..]
  }

  lemma {:induction false} PlainCompared(t: Tree, v: Value, caseSensitive: bool)
    ensures Plain(Compared(t, v, caseSensitive)) == Visited(Plain(t), v, caseSensitive)
    decreases t, 2
  {
    if Kind(Plain(t)) == Kind(v) {
      match t
      case Atom(_) =>
      case List(items) => PlainComparedItems(items, v.items, caseSensitive);
      case Record(_, _) => PlainComparedRecord(t, v, caseSensitive);
    }
  }

  lemma {:induction false} PlainComparedRecord(t: Tree, v: Value, caseSensitive: bool)
    requires t.Record? && v.Object?
    ensures Plain(Compared(t, v, caseSensitive)) == Visited(Plain(t), v, caseSensitive)
    decreases t, 1
  {
    var s := Sort(t.members, caseSensitive);
    SortMembers(t.members, caseSensitive);
    SortMembers(PlainMembers(t.members), caseSensitive);
    PlainSorted(t.members, caseSensitive);
    hide Sort, CompareStrings, Whole, TreeAt, TreePut;
    PlainComparedMembers(t, s, Sort(v.members, caseSensitive), caseSensitive);
  }

  lemma {:induction false} PlainComparedItems(a: seq<Tree>, b: seq<Value>, caseSensitive: bool)
    ensures PlainItems(ComparedItems(a, b, caseSensitive)) == VisitedItems(PlainItems(a), b, caseSensitive)
    decreases a, 0
  {
    if a != [] && b != [] {
      PlainCompared(a[0], b[0], caseSensitive);
      PlainComparedItems(a[1..], b[1..], caseSensitive);
      assert PlainItems(a)[1..] == PlainItems(a[1..]);
    }
  }

  lemma {:induction false} PlainComparedMembers(whole: Tree, a: seq<Entry<Tree>>, b: Members, caseSensitive: bool)
    requires whole.Record? && (forall e :: e in a ==> e in whole.members)
    requires forall e :: e in PlainMembers(a) ==> e in PlainMembers(whole.members)
    ensures PlainMembers(ComparedMembers(whole, a, b, caseSensitive))
         == VisitedMembers(Plain(whole), PlainMembers(a), b, caseSensitive)
    decreases whole, 0, |a|
  {
    if a != [] && b != [] && CompareStrings(a[0].key, b[0].key, caseSensitive) == 0 {
      assert a[0] in whole.members;
      PlainCompared(a[0].item, b[0].item, caseSensitive);
      assert PlainMembers(a)[1..] == PlainMembers(a[1..]);
      PlainComparedMembers(whole, a[1..], b[1..], caseSensitive);
    }
  }

  // ---- When the records stay right ----------------------------------------------------------

  /** The comparison reaches an object whose first or last member has another place in the sort. */
  predicate MovesEnds(a: Value, b: Value, caseSensitive: bool)
    decreases a, 1
  {
    Kind(a) == Kind(b) &&
    match a
    case Array(items) => MovesEndsOfItems(items, b.items, caseSensitive)
    case Object(members) =>
      SortMembers(members, caseSensitive);
      || !EndsStay(members, caseSensitive)
      || MovesEndsOfMembers(a, Sort(members, caseSensitive), Sort(b.members, caseSensitive), caseSensitive)
    case _ => false
  }

  predicate MovesEndsOfItems(a: seq<Value>, b: seq<Value>, caseSensitive: bool)
    decreases a, 0
  {
    a != [] && b != [] &&
    (MovesEnds(a[0], b[0], caseSensitive)
     || (CompareJson(a[0], b[0], caseSensitive) && MovesEndsOfItems(a[1..], b[1..], caseSensitive)))
  }

  predicate MovesEndsOfMembers(ghost whole: Value, a: Members, b: Members, caseSensitive: bool)
    requires whole.Object? && forall e :: e in a ==> e in whole.members
    decreases whole, 0, |a|
  {
    a != [] && b != [] && CompareStrings(a[0].key, b[0].key, caseSensitive) == 0 &&
    assert a[0] in whole.members;
    (MovesEnds(a[0].item, b[0].item, caseSensitive)
     || (CompareJson(a[0].item, b[0].item, caseSensitive) && MovesEndsOfMembers(whole, a[1..], b[1..], caseSensitive)))
  }

  predicate WholeItems(items: seq<Tree>) {
    forall i :: 0 <= i < |items| ==> Whole(items[i])
  }

  predicate WholeMembers(members: seq<Entry<Tree>>) {
    forall i :: 0 <= i < |members| ==> Whole(members[i].item)
  }

  lemma WholeItemsSplit(head: Tree, rest: seq<Tree>)
    ensures WholeItems([head] + rest) <==> Whole(head) && WholeItems(rest)
  {
    var all := [head] + rest;
    assert all[0] == head && forall i :: 0 <= i < |rest| ==> all[i + 1] == rest[i];
  }

  lemma WholeMembersSplit(head: Entry<Tree>, rest: seq<Entry<Tree>>)
    ensures WholeMembers([head] + rest) <==> Whole(head.item) && WholeMembers(rest)
  {
    var all := [head] + rest;
    assert all[0] == head && forall i :: 0 <= i < |rest| ==> all[i + 1] == rest[i];
  }

  /** A comparison leaves every record right exactly when no object it reaches has its ends moved. */
  lemma {:induction false} WholeCompared(t: Tree, v: Value, caseSensitive: bool)
    requires Whole(t)
    ensures Whole(Compared(t, v, caseSensitive)) <==> !MovesEnds(Plain(t), v, caseSensitive)
    decreases t, 2
  {
    if Kind(Plain(t)) == Kind(v) {
      match t
      case Atom(_) =>
      case List(items) =>
        WholeComparedItems(items, v.items, caseSensitive);
        assert Whole(List(ComparedItems(items, v.items, caseSensitive)))
          <==> WholeItems(ComparedItems(items, v.items, caseSensitive));
      case Record(_, _) => WholeComparedRecord(t, v, caseSensitive);
    }
  }

  lemma SortedItems(members: seq<Entry<Tree>>, s: seq<Entry<Tree>>, caseSensitive: bool)
    requires WholeMembers(members) && s == Sort(members, caseSensitive)
    ensures WholeMembers(s)
  {
    SortedFrom(members, s, caseSensitive);
    hide Sort, Whole;
    forall i | 0 <= i < |s| ensures Whole(s[i].item) {
      assert s[i] in s;
      assert s[i] in members;
    }
  }

  /** What sorting a record does to it and to its items. */
  lemma SortedRecord(t: Tree, caseSensitive: bool)
    requires t.Record? && Whole(t)
    ensures WholeMembers(Sort(t.members, caseSensitive))
    ensures Complete(SortedList(Tailed(t.members, t.tail), caseSensitive)) <==> EndsStay(PlainMembers(t.members), caseSensitive)
    ensures SortedList(Tailed(t.members, t.tail), caseSensitive).children == Sort(t.members, caseSensitive)
  {
    WholeRecord(t.members, t.tail);
    assert Keys(t.members) == Keys(PlainMembers(t.members));
    hide Sort, Order, SortedList, Reordered, Whole, Keys;
    SortedItems(t.members, Sort(t.members, caseSensitive), caseSensitive);
    SortedListIs(Tailed(t.members, t.tail), caseSensitive);
    SortedListComplete(Tailed(t.members, t.tail), caseSensitive);
  }

  lemma ComparedUnfolds(t: Tree, v: Value, caseSensitive: bool)
    requires t.Record? && v.Object?
    ensures forall e :: e in Sort(t.members, caseSensitive) ==> e in t.members
    ensures Compared(t, v, caseSensitive) ==
              Record(ComparedMembers(t, Sort(t.members, caseSensitive), Sort(v.members, caseSensitive), caseSensitive),
                     SortedList(Tailed(t.members, t.tail), caseSensitive).tail)
  {
    SortedFrom(t.members, Sort(t.members, caseSensitive), caseSensitive);
    hide Sort, SortedList;
  }

  lemma MovesEndsUnfolds(a: Value, b: Value, caseSensitive: bool)
    requires a.Object? && b.Object?
    ensures forall e :: e in Sort(a.members, caseSensitive) ==> e in a.members
    ensures MovesEnds(a, b, caseSensitive) <==>
              || !EndsStay(a.members, caseSensitive)
              || MovesEndsOfMembers(a, Sort(a.members, caseSensitive), Sort(b.members, caseSensitive), caseSensitive)
  {
    SortedFrom(a.members, Sort(a.members, caseSensitive), caseSensitive);
    hide Sort, EndsStay;
  }

  lemma {:induction false} WholeComparedRecord(t: Tree, v: Value, caseSensitive: bool)
    requires t.Record? && v.Object? && Whole(t)
    ensures Whole(Compared(t, v, caseSensitive)) <==> !MovesEnds(Plain(t), v, caseSensitive)
    decreases t, 1
  {
    var s := Sort(t.members, caseSensitive);
    ComparedUnfolds(t, v, caseSensitive);
    MovesEndsUnfolds(Plain(t), v, caseSensitive);
    PlainSorted(t.members, caseSensitive);
    SortedRecord(t, caseSensitive);
    hide Sort, Whole, WholeMembers, SortedList, EndsStay, Compared, MovesEnds, ComparedMembers, MovesEndsOfMembers, Complete;
    WholeComparedMembers(t, s, Sort(v.members, caseSensitive), caseSensitive);
    var r := ComparedMembers(t, s, Sort(v.members, caseSensitive), caseSensitive);
    WholeRecord(r, SortedList(Tailed(t.members, t.tail), caseSensitive).tail);
    SameRecord(s, r, SortedList(Tailed(t.members, t.tail), caseSensitive));
  }

  /** Only the number of children matters to a record. */
  lemma SameRecord(s: seq<Entry<Tree>>, r: seq<Entry<Tree>>, l: Tailed<Entry<Tree>>)
    requires l.children == s && |r| == |s|
    ensures Complete(Tailed(r, l.tail)) <==> Complete(l)
  {}

  lemma WholeRecord(members: seq<Entry<Tree>>, tail: Tail)
    ensures Whole(Record(members, tail)) <==> Complete(Tailed(members, tail)) && WholeMembers(members)
  {}

  lemma {:induction false} WholeComparedItems(a: seq<Tree>, b: seq<Value>, caseSensitive: bool)
    requires WholeItems(a)
    ensures WholeItems(ComparedItems(a, b, caseSensitive)) <==> !MovesEndsOfItems(PlainItems(a), b, caseSensitive)
    decreases a, 0
  {
    hide Whole;
    if a != [] && b != [] {
      assert a == [a[0]] + a[1..];
      WholeItemsSplit(a[0], a[1..]);
      WholeCompared(a[0], b[0], caseSensitive);
      WholeComparedItems(a[1..], b[1..], caseSensitive);
      assert PlainItems(a)[1..] == PlainItems(a[1..]);
      WholeItemsSplit(Compared(a[0], b[0], caseSensitive),
        if CompareJson(Plain(a[0]), b[0], caseSensitive) then ComparedItems(a[1..], b[1..], caseSensitive) else a[1..]);
    }
  }

  lemma {:induction false} WholeComparedMembers(whole: Tree, a: seq<Entry<Tree>>, b: Members, caseSensitive: bool)
    requires whole.Record? && (forall e :: e in a ==> e in whole.members) && WholeMembers(a)
    requires forall e :: e in PlainMembers(a) ==> e in PlainMembers(whole.members)
    ensures WholeMembers(ComparedMembers(whole, a, b, caseSensitive))
       <==> !MovesEndsOfMembers(Plain(whole), PlainMembers(a), b, caseSensitive)
    decreases whole, 0, |a|
  {
    hide Whole;
    if a != [] && b != [] && CompareStrings(a[0].key, b[0].key, caseSensitive) == 0 {
      assert a[0] in whole.members && a == [a[0]] + a[1..];
      WholeMembersSplit(a[0], a[1..]);
      assert PlainMembers(a)[1..] == PlainMembers(a[1..]);
      WholeCompared(a[0].item, b[0].item, caseSensitive);
      WholeComparedMembers(whole, a[1..], b[1..], caseSensitive);
      WholeMembersSplit(Entry(a[0].key, Compared(a[0].item, b[0].item, caseSensitive)),
        if CompareJson(Plain(a[0].item), b[0].item, caseSensitive)
        then ComparedMembers(whole, a[1..], b[1..], caseSensitive) else a[1..]);
    }
  }
}

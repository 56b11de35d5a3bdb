/**
 Child lists on the heap whose recorded tail need not be the last child: sorting, taking out and
 appending do to the nodes what `Tails` says.
 */
module TailedLists {
  import opened ChildList
  import opened CString
  import opened Json
  import opened KeySort
  import opened ListSort
  import opened Nodes
  import opened Tails

  /** The children of `parent`, and what the `prev` of the first one points to. */
  ghost predicate Shape(parent: Node, l: Tailed<Node>)
    reads parent`child, l.children`next, l.children`prev
  {
    && Chain(parent.child, l.children)
    && parent !in l.children
    && Sound(l)
    && (l.children != [] ==> Records(l.children[0].prev, l))
  }

  ghost predicate Records(cached: Node?, l: Tailed<Node>)
    requires Sound(l) && l.children != []
  {
    match l.tail
    case NoTail => cached == null
    case Gone => cached != null && cached !in l.children
    case TailAt(k) => cached == l.children[k]
  }

  /** A list is fully linked exactly when its record is right. */
  lemma LinkedIsComplete(parent: Node, l: Tailed<Node>)
    requires Shape(parent, l)
    ensures Linked(parent, l.children) <==> Complete(l)
  {
    if l.children != [] && l.tail.TailAt? {
      assert l.children[l.tail.index] == l.children[|l.children| - 1] <==> l.tail.index == |l.children| - 1;
    }
  }

  /** `cJSON_DetachItemViaPointer`, whatever tail is recorded. */
  method TakeOut(parent: Node, item: Node, ghost l: Tailed<Node>, ghost i: nat)
    requires Shape(parent, l) && i < |l.children| && l.children[i] == item
    modifies parent`child, l.children`next, l.children`prev
    ensures Shape(parent, Dropped(l, i)) && item.next == null && item.prev == null
  {
    ghost var cached := l.children[0].prev;
    var _ := DetachItemViaPointer(parent, item, l.children, i);
    DroppedIsSound(l, i);
    if |l.children| > 1 { DroppedRecords(l, i, cached); }
    hide Chain;
  }

  lemma DroppedRecords(l: Tailed<Node>, i: nat, cached: Node?)
    requires Sound(l) && i < |l.children| && |l.children| > 1 && NoRepeats(l.children) && Records(cached, l)
    ensures Sound(Dropped(l, i))
    ensures Records(if 0 < i == |l.children| - 1 then l.children[i - 1] else cached, Dropped(l, i))
  {
    var xs, ys := l.children, Remove(l.children, i);
    assert forall j {:trigger ys[j]} :: 0 <= j < |ys| ==> ys[j] == xs[if j < i then j else j + 1];
  }

  /** `add_item_to_array`, whatever child is recorded. */
  method Attach(parent: Node, item: Node, ghost l: Tailed<Node>)
    requires Shape(parent, l) && item !in l.children && item != parent && item.next == null
    requires l.children != [] ==> !l.tail.Gone?
    modifies parent`child, item`next, item`prev, l.children`next, l.children`prev
    ensures Shape(parent, Appended(l, item))
  {
    ghost var k := if l.tail.TailAt? then l.tail.index else 0;
    var _ := AddItemToArray(parent, item, l.children, k);
    assert l.children == [] ==> Appended(l, item).children == [item];
  }

  ghost function Names(xs: seq<Node>): (names: seq<string>)
    requires Named(xs)
    reads xs`name
    ensures |names| == |xs|
  {
    Keys(Entries(xs))
  }

  /** `sort_object`, whatever tail is recorded. */
  method SortChildren(parent: Node, caseSensitive: bool, ghost l: Tailed<Node>)
    requires Shape(parent, l) && Named(l.children)
    modifies parent`child, NodeSet(l.children)`next, NodeSet(l.children)`prev
    ensures Shape(parent, Reordered(l, old(Order(Names(l.children), caseSensitive))))
  {
    ghost var order := Order(Names(l.children), caseSensitive);
    ghost var ys := Items(Sort(Entries(l.children), caseSensitive));
    ghost var cached := if l.children == [] then null else l.children[0].prev;
    ReorderedNodes(l, order, ys, caseSensitive);
    if l.children != [] { ReorderedRecords(l, order, cached); }
    hide *;
    SortObject(parent, caseSensitive, l.children);
    ShapeAgain(parent, l, order, ys, cached);
  }

  lemma ReorderedNodes(l: Tailed<Node>, order: seq<nat>, ys: seq<Node>, caseSensitive: bool)
    requires Named(l.children) && order == Order(Names(l.children), caseSensitive)
    requires ys == Items(Sort(Entries(l.children), caseSensitive))
    ensures Permutation(order) && Reordered(l, order).children == ys
  {
    var es := Entries(l.children);
    SortByOrder(es, caseSensitive);
    OrderPermutes(Names(l.children), caseSensitive);
    hide Sort, Entries, Order;
  }

  lemma ReorderedRecords(l: Tailed<Node>, order: seq<nat>, cached: Node?)
    requires Sound(l) && |order| == |l.children| > 0 && Permutation(order) && NoRepeats(l.children) && Records(cached, l)
    ensures var r := Reordered(l, order);
            && Sound(r)
            && Records(if r.children[0] == l.children[0] then cached else null, r)
  {
    var r := Reordered(l, order);
    ReorderedComplete(l, order);
    assert order[0] == 0 <==> r.children[0] == l.children[0];
    if l.tail.TailAt? { assert l.tail.index in order; }
    forall n | n in r.children ensures n in l.children {}
  }

  lemma ShapeAgain(parent: Node, l: Tailed<Node>, order: seq<nat>, ys: seq<Node>, cached: Node?)
    requires Chain(parent.child, ys) && parent !in l.children
    requires |order| == |l.children| && Permutation(order) && Reordered(l, order).children == ys
    requires ys == [] ==> Sound(l)
    requires ys != [] ==>
               && ys[0].prev == (if ys[0] == l.children[0] then cached else null)
               && Sound(Reordered(l, order))
               && Records(if ys[0] == l.children[0] then cached else null, Reordered(l, order))
    ensures Shape(parent, Reordered(l, order))
  {
    assert forall j :: 0 <= j < |ys| ==> ys[j] == l.children[order[j]];
  }

  /** `get_object_item`: the walk to the first child whose name compares equal. */
  method FindMember(parent: Node, name: string, caseSensitive: bool, ghost l: Tailed<Node>) returns (item: Node?, ghost i: nat)
    requires Shape(parent, l) && Named(l.children)
    ensures i == IndexOf(Entries(l.children), name, caseSensitive)
    ensures item == if i < |l.children| then l.children[i] else null
  {
    ghost var xs := l.children;
    ghost var es := Entries(xs);
    item := parent.child;
    i := 0;
    assert es[0..] == es;
    while item != null && CompareStrings(name, item.name.value, caseSensitive) != 0
      invariant i <= |xs| && item == if i < |xs| then xs[i] else null
      invariant IndexOf(es, name, caseSensitive) == i + IndexOf(es[i..], name, caseSensitive)
      decreases |xs| - i
    {
      assert xs[i].next == NextOf(xs, i) && es[i..][0] == es[i] && es[i..][1..] == es[i + 1..];
      item := item.next;
      i := i + 1;
    }
    if i < |xs| { assert es[i..][0] == es[i]; }
  }

  /** How `apply_patch` sets a member: the one of that name is taken out, then the item is appended. */
  method SetMember(parent: Node, item: Node, name: string, caseSensitive: bool, ghost l: Tailed<Node>)
    requires Shape(parent, l) && Named(l.children)
    requires item !in l.children && item != parent && item.next == null
    requires var i := IndexOf(Entries(l.children), name, caseSensitive);
             RecordsChild(l, i)
    modifies parent`child, item`next, item`prev, l.children`next, l.children`prev
    ensures Shape(parent, Replaced(l, old(IndexOf(Entries(l.children), name, caseSensitive)), item))
  {
    var found, i := FindMember(parent, name, caseSensitive, l);
    ghost var left := l;
    hide Shape;
    if found != null {
      TakeOut(parent, found, l, i);
      left := Dropped(l, i);
    }
    Attach(parent, item, left);
  }
}

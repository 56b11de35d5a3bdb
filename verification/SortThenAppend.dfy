/**
 What an append does to a list that has just been sorted: sorting gives a new head no tail, and leaves
 an old head the old tail, so the append loses the item or whatever the sort put behind that tail.
 */
module SortThenAppend {
  import opened ChildList
  import opened CString
  import opened Json
  import opened KeySort
  import opened ListSort
  import opened Nodes

  ghost function Sorted(xs: seq<Node>, caseSensitive: bool): (ys: seq<Node>)
    requires Named(xs)
    reads xs`name
    ensures |ys| == |xs|
  {
    Items(Sort(Entries(xs), caseSensitive))
  }

  /**
   `sort_object`, then `add_item_to_array`. The append always reports success; it keeps every child and
   the item exactly when the first and the last child kept their places in the sort.
   */
  method AppendAfterSort(parent: Node, item: Node, caseSensitive: bool, ghost xs: seq<Node>) returns (ok: bool, ghost k: nat)
    requires Linked(parent, xs) && Named(xs) && xs != []
    requires item !in xs && item != parent && item.next == null
    modifies parent`child, item`next, item`prev, NodeSet(xs)`next, NodeSet(xs)`prev
    ensures ok
    ensures var ys := old(Sorted(xs, caseSensitive));
            && k < |xs| && ys[k] == xs[|xs| - 1]
            && (ys[0] == xs[0] ==> Linked(parent, ys[..k + 1] + [item]))
            && (ys[0] != xs[0] ==> Chain(parent.child, ys) && ys[0].prev == null)
            && (Linked(parent, ys + [item]) <==> ys[0] == xs[0] && ys[|xs| - 1] == xs[|xs| - 1])
  {
    hide *;
    ghost var ys := Sorted(xs, caseSensitive);
    k := LastStands(xs, caseSensitive);
    SortChildren(parent, caseSensitive, xs, ys, item);
    ok := Attach(parent, item, ys, k, xs[0], xs[|xs| - 1]);
  }

  /** The sort, and what the append needs to know of its outcome. */
  method SortChildren(parent: Node, caseSensitive: bool, ghost xs: seq<Node>, ghost ys: seq<Node>, ghost item: Node)
    requires Linked(parent, xs) && Named(xs) && xs != [] && item !in xs && ys == Sorted(xs, caseSensitive)
    modifies parent`child, NodeSet(xs)`next, NodeSet(xs)`prev
    ensures Chain(parent.child, ys) && NoRepeats(ys) && parent !in ys && item !in ys
    ensures ys[0].prev == if ys[0] == xs[0] then xs[|xs| - 1] else null
    ensures forall n: Node :: n in ys ==> n in NodeSet(xs)
    ensures item.next == old(item.next)
  {
    TailOfLinked(parent, xs);
    SortedNodes(xs, caseSensitive);
    SortedIs(xs, caseSensitive);
    NodeSetHas(xs);
    hide *;
    SortObject(parent, caseSensitive, xs);
    SetsAgree(xs, ys, parent, item);
    SameFrame(xs, ys);
    ChainIs(parent.child, ys);
  }

  /** The append, on the list as the sort leaves it. */
  method Attach(parent: Node, item: Node, ghost ys: seq<Node>, ghost k: nat, ghost first: Node, ghost last: Node)
    returns (ok: bool)
    requires Chain(parent.child, ys) && NoRepeats(ys) && parent !in ys && item !in ys && item != parent && item.next == null
    requires k < |ys| && ys[k] == last && ys[0].prev == if ys[0] == first then last else null
    modifies parent`child, item`next, item`prev, ys`next, ys`prev
    ensures ok
    ensures ys[0] == first ==> Linked(parent, ys[..k + 1] + [item])
    ensures ys[0] != first ==> Chain(parent.child, ys) && ys[0].prev == null
    ensures Linked(parent, ys + [item]) <==> ys[0] == first && ys[|ys| - 1] == last
  {
    ok := AddItemToArray(parent, item, ys, k);
    OnlyThere(parent, ys, k, last, first, item);
  }

  lemma TailOfLinked(parent: Node, xs: seq<Node>)
    requires Linked(parent, xs) && xs != []
    ensures Chain(parent.child, xs) && parent !in xs && xs[0].prev == xs[|xs| - 1]
  {}

  lemma SortedIs(xs: seq<Node>, caseSensitive: bool)
    requires Named(xs)
    ensures Sorted(xs, caseSensitive) == Items(Sort(Entries(xs), caseSensitive))
  {}

  /** The old tail stands somewhere in the sorted list. */
  lemma LastStands(xs: seq<Node>, caseSensitive: bool) returns (k: nat)
    requires Named(xs) && xs != []
    ensures k < |xs| && Sorted(xs, caseSensitive)[k] == xs[|xs| - 1]
  {
    var ys := Sorted(xs, caseSensitive);
    SortedListMeaning(xs, caseSensitive);
    NodeAt(xs, xs[|xs| - 1]);
    NodeAt(ys, xs[|xs| - 1]);
    k :| 0 <= k < |ys| && ys[k] == xs[|xs| - 1];
  }

  lemma SetsAgree(xs: seq<Node>, ys: seq<Node>, parent: Node, item: Node)
    requires NodeSet(ys) <= NodeSet(xs) && parent !in xs && item !in xs
    ensures parent !in ys && item !in ys
  {
    NodeSetHas(xs);
    NodeSetHas(ys);
  }

  /** With the item right behind the child at `k`, the children behind that one are gone. */
  lemma CutOff(parent: Node, ys: seq<Node>, k: nat, item: Node)
    requires k < |ys| - 1 && item !in ys && Linked(parent, ys[..k + 1] + [item])
    ensures !Linked(parent, ys + [item])
  {
    var short, long := ys[..k + 1] + [item], ys + [item];
    assert short[k] == ys[k] && short[k + 1] == item;
    assert short[k].next == NextOf(short, k);
    assert long[k] == ys[k] && NextOf(long, k) == ys[k + 1] && ys[k + 1] != item;
    assert long[k].next != NextOf(long, k);
  }

  /** As long as the chain ends where it did, the item is not in it. */
  lemma NotAppended(parent: Node, ys: seq<Node>, item: Node)
    requires ys != [] && Chain(parent.child, ys)
    ensures !Linked(parent, ys + [item])
  {
    var long, last := ys + [item], |ys| - 1;
    assert ys[last].next == NextOf(ys, last);
    assert long[last] == ys[last] && NextOf(long, last) == item;
    assert long[last].next != NextOf(long, last);
  }

  /** Only the child at `k` is the one at `k`. */
  lemma OnlyThere(parent: Node, ys: seq<Node>, k: nat, last: Node, first: Node, item: Node)
    requires k < |ys| && NoRepeats(ys) && ys[k] == last && item !in ys
    requires ys[0] == first ==> Linked(parent, ys[..k + 1] + [item])
    requires ys[0] != first ==> Chain(parent.child, ys)
    ensures Linked(parent, ys + [item]) <==> ys[0] == first && ys[|ys| - 1] == last
  {
    hide Linked, Chain;
    if ys[0] != first {
      NotAppended(parent, ys, item);
    } else if k < |ys| - 1 {
      CutOff(parent, ys, k, item);
    } else {
      assert ys[..k + 1] == ys;
    }
  }

  /** The sorted children are no others than before. */
  lemma SameFrame(xs: seq<Node>, ys: seq<Node>)
    requires NodeSet(ys) <= NodeSet(xs)
    ensures forall n: Node :: n in ys ==> n in NodeSet(xs)
  {
    NodeSetHas(ys);
  }

  // ---- Two inputs ---------------------------------------------------------------------------

  lemma Letters()
    ensures CompareStrings("a", "b", true) < 0 && CompareStrings("b", "a", true) > 0
    ensures CompareStrings("a", "c", true) < 0 && CompareStrings("c", "b", true) > 0
    ensures CompareStrings("b", "c", true) < 0
  {}

  lemma PairSorts<T>(a: T, b: T)
    ensures Sort([Entry("b", b), Entry("a", a)], true) == [Entry("a", a), Entry("b", b)]
  {
    Letters();
    var s := [Entry("b", b), Entry("a", a)];
    assert CompareKeys(s[0], s[1], true) > 0;
    assert s[..1] == [Entry("b", b)] && s[1..] == [Entry("a", a)];
    MergeUnfolds([Entry("b", b)], [Entry("a", a)], true);
    assert [Entry("a", a)][1..] == [];
  }

  lemma TripleSorts<T>(a: T, b: T, c: T)
    ensures Sort([Entry("a", a), Entry("c", c), Entry("b", b)], true) == [Entry("a", a), Entry("b", b), Entry("c", c)]
  {
    Letters();
    var ea, eb, ec := Entry("a", a), Entry("b", b), Entry("c", c);
    var s := [ea, ec, eb];
    assert CompareKeys(s[1], s[2], true) > 0;
    assert s[..2] == [ea, ec] && s[2..] == [eb];
    assert Sort([ea, ec], true) == [ea, ec] && Sort([eb], true) == [eb];
    MergeUnfolds([ea, ec], [eb], true);
    assert [ea, ec][1..] == [ec];
    MergeUnfolds([ec], [eb], true);
    assert [eb][1..] == [];
  }

  method Called(name: string) returns (n: Node)
    ensures fresh(n) && n.next == null && n.name == Some(name)
  {
    n := new Node();
    n.name := Some(name);
  }

  /** A fully linked list of one node. */
  method LinkOne(parent: Node, x: Node)
    requires parent != x && parent.child == null && x.next == null
    modifies parent`child, x`next, x`prev
    ensures Linked(parent, [x])
  {
    var _ := AddItemToArray(parent, x, [], 0);
  }

  /** One more at its end. */
  method LinkNext(parent: Node, x: Node, ghost xs: seq<Node>)
    requires Linked(parent, xs) && xs != [] && x !in xs && parent != x && x.next == null
    modifies parent`child, x`next, x`prev, xs`next, xs`prev
    ensures Linked(parent, xs + [x])
  {
    var _ := AppendItem(parent, x, xs);
    hide Linked;
    assert Insert(xs, |xs|, x) == xs + [x];
  }

  lemma PairEntries(x: Node, y: Node)
    requires x.name.Some? && y.name.Some?
    ensures Named([x, y]) && Entries([x, y]) == [Entry(x.name.value, x), Entry(y.name.value, y)]
  {}

  lemma TripleEntries(x: Node, y: Node, z: Node)
    requires x.name.Some? && y.name.Some? && z.name.Some?
    ensures Named([x, y, z])
    ensures Entries([x, y, z]) == [Entry(x.name.value, x), Entry(y.name.value, y), Entry(z.name.value, z)]
  {
    EntriesAre([x, y, z]);
    hide Entries;
  }

  /** An object with the members `b`, `a`. */
  method PairList() returns (parent: Node, a: Node, b: Node)
    ensures fresh(parent) && fresh(a) && fresh(b)
    ensures a.name == Some("a") && b.name == Some("b") && Linked(parent, [b, a])
  {
    parent := new Node();
    a := Called("a");
    b := Called("b");
    LinkOne(parent, b);
    LinkNext(parent, a, [b]);
    assert [b] + [a] == [b, a];
  }

  /** An object with the members `a`, `c`, `b`. */
  method TripleList() returns (parent: Node, a: Node, b: Node, c: Node)
    ensures fresh(parent) && fresh(a) && fresh(b) && fresh(c)
    ensures a.name == Some("a") && b.name == Some("b") && c.name == Some("c") && Linked(parent, [a, c, b])
  {
    parent := new Node();
    a := Called("a");
    b := Called("b");
    c := Called("c");
    hide Linked;
    LinkOne(parent, a);
    LinkNext(parent, c, [a]);
    assert [a] + [c] == [a, c];
    LinkNext(parent, b, [a, c]);
    assert [a, c] + [b] == [a, c, b];
  }

  lemma PairSorted(a: Node, b: Node)
    requires a.name == Some("a") && b.name == Some("b")
    ensures Named([b, a]) && Sorted([b, a], true) == [a, b]
  {
    PairEntries(b, a);
    PairSorts(a, b);
    hide Sort, Entries;
  }

  lemma TripleSorted(a: Node, b: Node, c: Node)
    requires a.name == Some("a") && b.name == Some("b") && c.name == Some("c")
    ensures Named([a, c, b]) && Sorted([a, c, b], true) == [a, b, c]
  {
    TripleEntries(a, c, b);
    TripleSorts(a, b, c);
    hide Sort, Entries;
  }

  /** The members `b`, `a`: after the sort the append reports success, and the item is nowhere in the list. */
  method ItemLost() returns (parent: Node, a: Node, b: Node, item: Node, ok: bool)
    ensures a.name == Some("a") && b.name == Some("b") && item != a && item != b
    ensures ok && Chain(parent.child, [a, b])
  {
    item := new Node();
    parent, a, b := PairList();
    PairSorted(a, b);
    hide Linked, Chain, Sorted, Named;
    ghost var k;
    ok, k := AppendAfterSort(parent, item, true, [b, a]);
  }

  /** The members `a`, `c`, `b`: after the sort the append cuts off `c`. */
  method MemberCutOff() returns (parent: Node, a: Node, b: Node, c: Node, item: Node, ok: bool)
    ensures a.name == Some("a") && b.name == Some("b") && c.name == Some("c") && c !in [a, b, item]
    ensures ok && Linked(parent, [a, b, item])
  {
    item := new Node();
    parent, a, b, c := TripleList();
    TripleSorted(a, b, c);
    Apart(parent, a, b, c);
    hide *;
    ghost var k;
    ok, k := AppendAfterSort(parent, item, true, [a, c, b]);
    Second(a, b, c, k, item);
  }

  lemma Apart(parent: Node, a: Node, b: Node, c: Node)
    requires Linked(parent, [a, c, b])
    ensures a != b && b != c && a != c && [a, c, b][2] == b && [a, c, b][0] == a
  {
    assert [a, c, b][0] == a && [a, c, b][1] == c && [a, c, b][2] == b;
  }

  lemma Second(a: Node, b: Node, c: Node, k: nat, item: Node)
    requires a != b && b != c && k < 3 && [a, b, c][k] == b
    ensures [a, b, c][..k + 1] + [item] == [a, b, item]
  {
    assert [a, b, c][0] == a && [a, b, c][2] == c;
  }
}

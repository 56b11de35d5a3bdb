/**
 A child list together with the tail that its head has recorded, which need not be the last child. What
 sorting, taking out and appending do to such a list; `TailedLists` ties this to the nodes on the heap.
 */
module Tails {
  import opened CString
  import opened Json
  import opened KeySort

  /** What the `prev` of the head points to: nothing, a child, or a node that is in the list no more. */
  datatype Tail = NoTail | Gone | TailAt(index: nat)

  datatype Tailed<T> = Tailed(children: seq<T>, tail: Tail)

  /** The recorded tail, if it is a child, is one of the children. */
  predicate Sound<T>(l: Tailed<T>) {
    l.children != [] && l.tail.TailAt? ==> l.tail.index < |l.children|
  }

  /** The recorded tail is the last child. Every list starts out like this. */
  predicate Complete<T>(l: Tailed<T>) {
    l.children == [] || l.tail == TailAt(|l.children| - 1)
  }

  function Fresh<T>(children: seq<T>): (l: Tailed<T>)
    ensures Complete(l) && Sound(l) && l.children == children
  {
    Tailed(children, if children == [] then NoTail else TailAt(|children| - 1))
  }

  // ---- Taking out and appending -------------------------------------------------------------

  /** The head hands its record on; the last child, unless it is the head, makes the record right again. */
  function Dropped<T>(l: Tailed<T>, i: nat): Tailed<T>
    requires i < |l.children|
  {
    var tail :=
      if 0 < i == |l.children| - 1 then TailAt(i - 1)
      else
        match l.tail
        case TailAt(k) => if k == i then Gone else TailAt(if k > i then k - 1 else k)
        case _ => l.tail;
    Tailed(Remove(l.children, i), tail)
  }

  /** Behind the recorded tail; what follows that one is cut off. Without a child there, it goes nowhere. */
  function Appended<T>(l: Tailed<T>, e: T): Tailed<T> {
    if l.children == [] then Tailed([e], TailAt(0))
    else
      match l.tail
      case TailAt(k) => if k < |l.children| then Tailed(l.children[..k + 1] + [e], TailAt(k + 1)) else l
      case _ => l
  }

  lemma DroppedIsSound<T>(l: Tailed<T>, i: nat)
    requires Sound(l) && i < |l.children|
    ensures Sound(Dropped(l, i))
  {}

  /** Taking a child out leaves the tail right exactly when it was right, or the last child goes. */
  lemma DroppedComplete<T>(l: Tailed<T>, i: nat)
    requires i < |l.children|
    ensures Complete(Dropped(l, i)) <==> i == |l.children| - 1 || Complete(l)
  {}

  /** An append keeps everything exactly when the recorded tail is right. */
  lemma AppendedExactly<T>(l: Tailed<T>, e: T)
    ensures Sound(l) ==> Sound(Appended(l, e))
    ensures Appended(l, e).children == l.children + [e] <==> Complete(l)
    ensures Complete(l) ==> Complete(Appended(l, e))
  {
    if Complete(l) && l.children != [] {
      assert l.children[..|l.children|] == l.children;
    } else if l.children != [] {
      assert |Appended(l, e).children| < |l.children + [e]|;
    }
  }

  /** Take out the child at `i`, if there is one, and append. */
  function Replaced<T>(l: Tailed<T>, i: nat, e: T): Tailed<T> {
    Appended(if i < |l.children| then Dropped(l, i) else l, e)
  }

  /** The append goes behind a child, or makes the first one. */
  predicate RecordsChild<T>(l: Tailed<T>, i: nat) {
    var left := if i < |l.children| then Dropped(l, i) else l;
    left.children == [] || !left.tail.Gone?
  }

  /** Nothing is lost exactly when the record was right, or it was the last child that has been taken out. */
  lemma ReplacedExactly<T>(l: Tailed<T>, i: nat, e: T)
    requires i <= |l.children|
    ensures Replaced(l, i, e).children == (if i < |l.children| then Remove(l.children, i) else l.children) + [e]
       <==> i == |l.children| - 1 || Complete(l)
    ensures i == |l.children| - 1 || Complete(l) ==> Complete(Replaced(l, i, e))
  {
    if i < |l.children| {
      DroppedComplete(l, i);
      AppendedExactly(Dropped(l, i), e);
    } else {
      AppendedExactly(l, e);
    }
  }

  // ---- Sorting ------------------------------------------------------------------------------

  /** The positions of the old list, each once. */
  ghost predicate Permutation(order: seq<nat>) {
    && (forall j :: 0 <= j < |order| ==> order[j] < |order|)
    && (forall i, j :: 0 <= i < j < |order| ==> order[i] != order[j])
    && (forall k: nat :: k < |order| ==> k in order)
  }

  function PositionOf(order: seq<nat>, k: nat): (j: nat)
    ensures j <= |order|
    ensures k in order ==> j < |order| && order[j] == k
  {
    if order == [] || order[0] == k then 0 else 1 + PositionOf(order[1..], k)
  }

  /** The children in another order. A head that stays keeps its record; a new head has none. */
  function Reordered<T>(l: Tailed<T>, order: seq<nat>): (r: Tailed<T>)
    requires |order| == |l.children| && forall j :: 0 <= j < |order| ==> order[j] < |order|
    ensures |r.children| == |l.children|
    ensures forall j :: 0 <= j < |order| ==> r.children[j] == l.children[order[j]]
  {
    var tail :=
      if order == [] || order[0] != 0 then NoTail
      else
        match l.tail
        case TailAt(k) => TailAt(PositionOf(order, k))
        case _ => l.tail;
    Tailed(seq(|order|, j requires 0 <= j < |order| => l.children[order[j]]), tail)
  }

  /** A right record survives exactly when the first and the last child keep their places. */
  lemma ReorderedComplete<T>(l: Tailed<T>, order: seq<nat>)
    requires |order| == |l.children| && Permutation(order)
    ensures Sound(l) ==> Sound(Reordered(l, order))
    ensures Complete(l) && order != [] ==>
              (Complete(Reordered(l, order)) <==> order[0] == 0 && order[|order| - 1] == |order| - 1)
  {
    if l.children != [] && l.tail.TailAt? && l.tail.index < |order| {
      assert l.tail.index in order;
    }
  }

  /** The order in which `sort_list` leaves children of these names. */
  function Order(keys: seq<string>, caseSensitive: bool): (order: seq<nat>)
    ensures |order| == |keys|
    ensures forall j :: 0 <= j < |order| ==> order[j] < |keys|
  {
    var sorted := Sort(Numbered(keys), caseSensitive);
    SortedNumbers(keys, sorted, caseSensitive);
    seq(|sorted|, j requires 0 <= j < |sorted| => sorted[j].item)
  }

  function Numbered(keys: seq<string>): (s: seq<Entry<nat>>)
    ensures |s| == |keys|
    ensures forall i :: 0 <= i < |s| ==> s[i] == Entry(keys[i], i)
  {
    seq(|keys|, i requires 0 <= i < |keys| => Entry(keys[i], i))
  }

  lemma SortedNumbers(keys: seq<string>, sorted: seq<Entry<nat>>, caseSensitive: bool)
    requires sorted == Sort(Numbered(keys), caseSensitive)
    ensures forall j :: 0 <= j < |sorted| ==> sorted[j].item < |keys| && sorted[j].key == keys[sorted[j].item]
  {
    SortMembers(Numbered(keys), caseSensitive);
    hide Sort;
    forall j | 0 <= j < |sorted| ensures sorted[j].item < |keys| && sorted[j].key == keys[sorted[j].item] {
      assert sorted[j] in Numbered(keys);
    }
  }

  lemma OrderPermutes(keys: seq<string>, caseSensitive: bool)
    ensures Permutation(Order(keys, caseSensitive))
  {
    var s, order := Numbered(keys), Order(keys, caseSensitive);
    var sorted := Sort(s, caseSensitive);
    SortMembers(s, caseSensitive);
    SortPermutes(s, caseSensitive);
    forall i, j | 0 <= i < j < |order| ensures order[i] != order[j] {
      if order[i] == order[j] {
        assert sorted[i] in s && sorted[j] in s;
        TwoPositions(sorted, i, j);
        var m, n := TwoOccurrences(s, sorted[i]);
      }
    }
    forall k: nat | k < |order| ensures k in order {
      assert s[k] in sorted;
      var j :| 0 <= j < |sorted| && sorted[j] == s[k];
      assert order[j] == k;
    }
  }

  /** `b` is what `a` says of `source`, entry by entry. */
  ghost predicate Labels<T>(a: seq<Entry<nat>>, b: seq<Entry<T>>, source: seq<T>) {
    && |a| == |b|
    && forall j :: 0 <= j < |a| ==> a[j].item < |source| && b[j] == Entry(a[j].key, source[a[j].item])
  }

  lemma LabelsFront<T>(a: seq<Entry<nat>>, b: seq<Entry<T>>, e: Entry<nat>, f: Entry<T>, source: seq<T>)
    requires Labels(a, b, source) && e.item < |source| && f == Entry(e.key, source[e.item])
    ensures Labels([e] + a, [f] + b, source)
  {}

  lemma LabelsBack<T>(a: seq<Entry<nat>>, b: seq<Entry<T>>, source: seq<T>)
    requires Labels(a, b, source) && a != []
    ensures Labels(a[1..], b[1..], source)
  {}

  lemma {:induction false} MergeLabels<T>(a: seq<Entry<nat>>, c: seq<Entry<nat>>, b: seq<Entry<T>>, d: seq<Entry<T>>,
                                          source: seq<T>, caseSensitive: bool)
    requires Labels(a, b, source) && Labels(c, d, source)
    ensures Labels(Merge(a, c, caseSensitive), Merge(b, d, caseSensitive), source)
  {
    if a != [] && c != [] {
      MergeUnfolds(a, c, caseSensitive);
      MergeUnfolds(b, d, caseSensitive);
      LabelsBack(a, b, source);
      LabelsBack(c, d, source);
      if CompareKeys(a[0], c[0], caseSensitive) < 0 {
        hide Merge;
        MergeLabels(a[1..], c, b[1..], d, source, caseSensitive);
        LabelsFront(Merge(a[1..], c, caseSensitive), Merge(b[1..], d, caseSensitive), a[0], b[0], source);
      } else {
        hide Merge;
        MergeLabels(a, c[1..], b, d[1..], source, caseSensitive);
        LabelsFront(Merge(a, c[1..], caseSensitive), Merge(b, d[1..], caseSensitive), c[0], d[0], source);
      }
    }
  }

  /** Sorting looks at the names only. */
  lemma {:induction false} SortLabels<T>(a: seq<Entry<nat>>, b: seq<Entry<T>>, source: seq<T>, caseSensitive: bool)
    requires Labels(a, b, source)
    ensures Labels(Sort(a, caseSensitive), Sort(b, caseSensitive), source)
    decreases |a|
  {
    assert StrictlySorted(a, caseSensitive) <==> StrictlySorted(b, caseSensitive);
    if |a| > 1 && !StrictlySorted(a, caseSensitive) {
      var m := (|a| + 1) / 2;
      SortUnfolds(a, caseSensitive);
      SortUnfolds(b, caseSensitive);
      SortLabels(a[..m], b[..m], source, caseSensitive);
      SortLabels(a[m..], b[m..], source, caseSensitive);
      MergeLabels(Sort(a[..m], caseSensitive), Sort(a[m..], caseSensitive),
                  Sort(b[..m], caseSensitive), Sort(b[m..], caseSensitive), source, caseSensitive);
    }
  }

  function Keys<T>(s: seq<Entry<T>>): (keys: seq<string>)
    ensures |keys| == |s|
    ensures forall i :: 0 <= i < |s| ==> keys[i] == s[i].key
  {
    seq(|s|, i requires 0 <= i < |s| => s[i].key)
  }

  /** The sorted list, by positions of the old one. */
  lemma SortByOrder<T>(s: seq<Entry<T>>, caseSensitive: bool)
    ensures var order := Order(Keys(s), caseSensitive);
            forall j :: 0 <= j < |s| ==> Sort(s, caseSensitive)[j] == s[order[j]]
  {
    var numbered, items := Numbered(Keys(s)), seq(|s|, i requires 0 <= i < |s| => s[i].item);
    assert Labels(numbered, s, items);
    SortLabels(numbered, s, items, caseSensitive);
    SortedNumbers(Keys(s), Sort(numbered, caseSensitive), caseSensitive);
    hide Sort, StrictlySorted, CompareKeys;
  }

  /** `sort_object` on a list of named children. */
  function SortedList<T>(l: Tailed<Entry<T>>, caseSensitive: bool): (r: Tailed<Entry<T>>)
    ensures |r.children| == |l.children|
  {
    Reordered(l, Order(Keys(l.children), caseSensitive))
  }

  lemma SortedListIs<T>(l: Tailed<Entry<T>>, caseSensitive: bool)
    ensures SortedList(l, caseSensitive).children == Sort(l.children, caseSensitive)
  {
    SortByOrder(l.children, caseSensitive);
    hide Sort, Order;
  }

  /** The first and the last child keep their places in the sort. */
  predicate EndsStay<T>(s: seq<Entry<T>>, caseSensitive: bool) {
    var order := Order(Keys(s), caseSensitive);
    s == [] || (order[0] == 0 && order[|s| - 1] == |s| - 1)
  }

  /** With distinct names, that is to say that the same two stand there. */
  lemma EndsStayIs<T>(s: seq<Entry<T>>, caseSensitive: bool)
    requires s != [] && DistinctKeys(s)
    ensures var sorted := Sort(s, caseSensitive);
            EndsStay(s, caseSensitive) <==> sorted[0] == s[0] && sorted[|s| - 1] == s[|s| - 1]
  {
    SortByOrder(s, caseSensitive);
    hide Sort, Order;
  }

  lemma SortedListComplete<T>(l: Tailed<Entry<T>>, caseSensitive: bool)
    requires Complete(l)
    ensures Complete(SortedList(l, caseSensitive)) <==> EndsStay(l.children, caseSensitive)
  {
    OrderPermutes(Keys(l.children), caseSensitive);
    ReorderedComplete(l, Order(Keys(l.children), caseSensitive));
  }
}

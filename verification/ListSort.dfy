/**
 `sort_list`: the merge sort that rewires the `next` and `prev` pointers of a child list in place. It
 leaves the nodes in the order of `KeySort.Sort`, linked as a chain. A head that stays the head keeps
 its `prev`, a new head has none: so the tail stays cached only when head and tail both stay.
 */
module ListSort {
  import opened CString
  import opened Json
  import opened KeySort
  import opened Nodes

  ghost predicate Named(xs: seq<Node>)
    reads xs`name
  {
    forall i {:trigger xs[i].name} :: 0 <= i < |xs| ==> xs[i].name.Some?
  }

  /** The nodes of a list with their names, which sorting does not touch. */
  ghost function Entries(xs: seq<Node>): (r: seq<Entry<Node>>)
    requires Named(xs)
    reads xs`name
    ensures |r| == |xs|
    ensures forall i {:trigger r[i]} :: 0 <= i < |xs| ==> r[i] == Entry(xs[i].name.value, xs[i])
  {
    if xs == [] then [] else
      assert forall i :: 0 <= i < |xs[1..]| ==> xs[1..][i] == xs[i + 1];
      [Entry(xs[0].name.value, xs[0])] + Entries(xs[1..])
  }

  ghost function Items(es: seq<Entry<Node>>): (r: seq<Node>)
    ensures |r| == |es|
  {
    seq(|es|, i requires 0 <= i < |es| => es[i].item)
  }

  /** Linked among themselves; where the last one leads is left open. */
  ghost predicate Prefix(xs: seq<Node>)
    reads xs`next, xs`prev
  {
    && (forall i {:trigger xs[i].next} :: 0 <= i < |xs| - 1 ==> xs[i].next == xs[i + 1])
    && (forall i {:trigger xs[i].prev} :: 0 < i < |xs| ==> xs[i].prev == xs[i - 1])
  }

  ghost predicate Separate(xs: seq<Node>, ys: seq<Node>) {
    forall i, j :: 0 <= i < |xs| && 0 <= j < |ys| ==> xs[i] != ys[j]
  }

  /** A finished part and a chain behind it. */
  lemma Splice(xs: seq<Node>, ys: seq<Node>)
    requires xs != [] && Prefix(xs) && NoRepeats(xs) && Separate(xs, ys)
    requires Chain(HeadOf(ys), ys)
    requires xs[|xs| - 1].next == HeadOf(ys) && (ys != [] ==> ys[0].prev == xs[|xs| - 1])
    ensures Chain(xs[0], xs + ys)
  {
    var zs := xs + ys;
    forall i | 0 <= i < |zs| ensures zs[i].next == NextOf(zs, i) {
      if i >= |xs| { assert zs[i] == ys[i - |xs|]; }
    }
    forall i | 0 < i < |zs| ensures zs[i].prev == zs[i - 1] {
      if i >= |xs| { assert zs[i] == ys[i - |xs|]; }
    }
  }

  /** A chain without its head. */
  lemma ChainTail(head: Node, xs: seq<Node>)
    requires Chain(head, xs)
    ensures xs != [] && Chain(head.next, xs[1..])
  {
    var ys := xs[1..];
    assert xs[0].next == NextOf(xs, 0);
    forall i | 0 <= i < |ys| ensures ys[i].next == NextOf(ys, i) { assert ys[i] == xs[i + 1]; }
    forall i | 0 < i < |ys| ensures ys[i].prev == ys[i - 1] { assert ys[i] == xs[i + 1]; }
  }

  /** Cutting a chain in front of the node at `m`. */
  lemma ChainHalves(xs: seq<Node>, m: nat)
    requires 0 < m < |xs| && NoRepeats(xs)
    requires forall i {:trigger xs[i].next} :: 0 <= i < |xs| ==> xs[i].next == if i + 1 == m then null else NextOf(xs, i)
    requires forall i {:trigger xs[i].prev} :: 0 < i < |xs| && i != m ==> xs[i].prev == xs[i - 1]
    ensures Chain(xs[0], xs[..m]) && Chain(xs[m], xs[m..])
  {
    var ys, zs := xs[..m], xs[m..];
    forall i | 0 <= i < |ys| ensures ys[i].next == NextOf(ys, i) { assert ys[i] == xs[i]; }
    forall i | 0 < i < |ys| ensures ys[i].prev == ys[i - 1] { assert ys[i] == xs[i]; }
    forall i | 0 <= i < |zs| ensures zs[i].next == NextOf(zs, i) { assert zs[i] == xs[m + i]; }
    forall i | 0 < i < |zs| ensures zs[i].prev == zs[i - 1] { assert zs[i] == xs[m + i]; }
  }

  // ---- Merging ------------------------------------------------------------------------------

  /** What the merge loop has done so far, and what both lists still hold. */
  ghost predicate Merging(done: seq<Node>, a: seq<Node>, b: seq<Node>, first: Node?, second: Node?)
    reads done`next, done`prev, a`next, a`prev, b`next, b`prev
  {
    && Prefix(done) && NoRepeats(done)
    && Chain(first, a) && Chain(second, b)
    && Separate(done, a) && Separate(done, b) && Separate(a, b)
  }

  /** Moving the head of `a` behind what is done. */
  method Take(tail: Node?, smaller: Node, ghost done: seq<Node>, ghost a: seq<Node>, ghost b: seq<Node>, ghost second: Node?)
    requires Merging(done, a, b, smaller, second)
    requires tail == if done == [] then null else done[|done| - 1]
    modifies (if tail == null then {} else {tail})`next, smaller`prev
    ensures a != [] && Merging(done + [smaller], a[1..], b, smaller.next, second)
    ensures tail == null ==> smaller.prev == old(smaller.prev)
  {
    if tail != null {
      tail.next := smaller;
      smaller.prev := tail;
    }
    ghost var now, rest := done + [smaller], a[1..];
    ChainTail(smaller, a);
    assert now[|done|] == smaller;
    assert forall i :: 0 <= i < |rest| ==> rest[i] == a[i + 1];
  }

  /** Putting a whole list behind what is done, the other list being empty. */
  method Append(tail: Node, rest: Node, ghost done: seq<Node>, ghost a: seq<Node>, ghost b: seq<Node>, ghost second: Node?)
    requires Merging(done, a, b, rest, second) && done != [] && tail == done[|done| - 1]
    modifies tail`next, rest`prev
    ensures Chain(done[0], done + a)
  {
    tail.next := rest;
    rest.prev := tail;
    Splice(done, a);
  }

  lemma Heads(done: seq<Node>, a: seq<Node>, b: seq<Node>, first: Node?, second: Node?)
    requires Merging(done, a, b, first, second)
    ensures first == HeadOf(a) && second == HeadOf(b)
    ensures Chain(first, a) && Chain(second, b)
    ensures Merging(done, b, a, second, first)
  {}

  /** What the merge loop has still to do on the entries completes what it has done. */
  ghost predicate Completes(done: seq<Node>, a: seq<Node>, b: seq<Node>, all: seq<Entry<Node>>, caseSensitive: bool)
    reads a`name, b`name
  {
    && Named(a) && Named(b) && |done| <= |all|
    && done == Items(all)[..|done|]
    && Merge(Entries(a), Entries(b), caseSensitive) == all[|done|..]
  }

  lemma EntriesTail(a: seq<Node>)
    requires Named(a) && a != []
    ensures Named(a[1..]) && Entries(a[1..]) == Entries(a)[1..]
  {
    assert forall i :: 0 <= i < |a[1..]| ==> a[1..][i] == a[i + 1];
  }

  lemma CompletesStep(done: seq<Node>, a: seq<Node>, b: seq<Node>, all: seq<Entry<Node>>, caseSensitive: bool)
    requires Completes(done, a, b, all, caseSensitive) && a != [] && b != []
    ensures a[0].name.Some? && b[0].name.Some?
    ensures if CompareStrings(a[0].name.value, b[0].name.value, caseSensitive) < 0
            then Completes(done + [a[0]], a[1..], b, all, caseSensitive)
            else Completes(done + [b[0]], a, b[1..], all, caseSensitive)
  {
    var k := |done|;
    var m := all[k..];
    EntriesTail(a);
    EntriesTail(b);
    assert m[0] == all[k] && m[1..] == all[k + 1..];
    hide Entries;
    assert Items(all)[..k + 1] == Items(all)[..k] + [all[k].item];
  }

  lemma CompletesEnds(done: seq<Node>, a: seq<Node>, b: seq<Node>, all: seq<Entry<Node>>, caseSensitive: bool)
    requires Completes(done, a, b, all, caseSensitive)
    ensures a == [] ==> Items(all) == done + b
    ensures b == [] ==> Items(all) == done + a
  {
    if a == [] { ItemsSuffix(all, |done|, b); }
    if b == [] { ItemsSuffix(all, |done|, a); }
  }

  lemma ItemsSuffix(all: seq<Entry<Node>>, k: nat, a: seq<Node>)
    requires Named(a) && k <= |all| && all[k..] == Entries(a)
    ensures Items(all) == Items(all)[..k] + a
  {
    var rest := all[k..];
    forall n | 0 <= n < |rest| ensures rest[n].item == Items(all)[k..][n] == a[n] {}
    hide Entries;
    assert Items(all)[k..] == a;
  }

  ghost function NodeSet(xs: seq<Node>): set<Node> {
    set n <- xs :: n
  }

  /** `a` is what is left of `xs`. */
  ghost predicate LeftOf(a: seq<Node>, xs: seq<Node>) {
    |a| <= |xs| && a == xs[|xs| - |a|..]
  }

  lemma LeftOfTail(a: seq<Node>, xs: seq<Node>)
    requires LeftOf(a, xs) && a != []
    ensures a[0] in NodeSet(xs) && LeftOf(a[1..], xs)
  {
    assert xs[|xs| - |a|] == a[0];
    assert a[0] in xs;
  }

  /** The smaller head leaves its list: one round of the merge loop. */
  method MergeRound(first: Node, second: Node, head: Node?, tail: Node?, caseSensitive: bool, ghost done: seq<Node>,
                    ghost a: seq<Node>, ghost b: seq<Node>, ghost all: seq<Entry<Node>>)
    returns (smaller: Node, rest: Node?, other: Node?, ghost c: seq<Node>, ghost d: seq<Node>)
    requires Completes(done, a, b, all, caseSensitive) && Merging(done, a, b, first, second)
    requires Ends(done, head, tail)
    modifies (if tail == null then {} else {tail})`next, first`prev, second`prev
    ensures smaller == first || smaller == second
    ensures Ends(done + [smaller], if head == null then smaller else head, smaller)
    ensures a != [] && b != []
    ensures (c == a[1..] && d == b) || (c == a && d == b[1..])
    ensures Completes(done + [smaller], c, d, all, caseSensitive) && Merging(done + [smaller], c, d, rest, other)
    ensures tail == null ==> smaller.prev == old(smaller.prev)
    ensures head != null ==> head.prev == old(head.prev)
  {
    hide *;
    HeadApart(done, a, b, first, second, head, tail);
    EndsGrow(done, head, tail, first);
    EndsGrow(done, head, tail, second);
    TailOf(done, head, tail);
    Heads(done, a, b, first, second);
    FirstOf(first, a);
    FirstOf(second, b);
    CompletesStep(done, a, b, all, caseSensitive);
    c, d, rest, other := a, b, first, second;
    if CompareStrings(first.name.value, second.name.value, caseSensitive) < 0 {
      smaller := first;
      Take(tail, smaller, done, a, b, second);
      rest, c := first.next, a[1..];
    } else {
      smaller := second;
      Take(tail, smaller, done, b, a, first);
      other, d := second.next, b[1..];
      Heads(done + [smaller], d, a, other, first);
    }
  }

  /** The head of what is done is not a head of what is left. */
  lemma HeadApart(done: seq<Node>, a: seq<Node>, b: seq<Node>, first: Node?, second: Node?, head: Node?, tail: Node?)
    requires Merging(done, a, b, first, second) && Ends(done, head, tail)
    ensures head == null <==> tail == null
    ensures head != null ==> head != first && head != second
  {}

  lemma FirstOf(head: Node, a: seq<Node>)
    requires head == HeadOf(a)
    ensures a != [] && a[0] == head
  {}

  lemma LeftOfRound(a: seq<Node>, c: seq<Node>, xs: seq<Node>)
    requires LeftOf(a, xs) && a != [] && (c == a || c == a[1..])
    ensures LeftOf(c, xs)
  {
    LeftOfTail(a, xs);
  }

  /** The two pointers to what is done. */
  ghost predicate Ends(done: seq<Node>, head: Node?, tail: Node?) {
    head == HeadOf(done) && tail == if done == [] then null else done[|done| - 1]
  }

  lemma TailOf(done: seq<Node>, head: Node?, tail: Node?)
    requires Ends(done, head, tail)
    ensures head == HeadOf(done) && tail == if done == [] then null else done[|done| - 1]
  {}

  lemma EndsGrow(done: seq<Node>, head: Node?, tail: Node?, n: Node)
    requires Ends(done, head, tail)
    ensures Ends(done + [n], if head == null then n else head, n)
  {}

  lemma MergeStarts(xs: seq<Node>, ys: seq<Node>, left: Node?, right: Node?, caseSensitive: bool)
    requires Chain(left, xs) && Chain(right, ys) && Separate(xs, ys) && Named(xs) && Named(ys)
    ensures Completes([], xs, ys, Merge(Entries(xs), Entries(ys), caseSensitive), caseSensitive)
    ensures Merging([], xs, ys, left, right)
    ensures LeftOf(xs, xs) && LeftOf(ys, ys) && Ends([], null, null)
  {}

  /** The merge loop of `sort_list`. */
  method MergeLists(left: Node?, right: Node?, caseSensitive: bool, ghost xs: seq<Node>, ghost ys: seq<Node>)
    returns (result: Node?)
    requires Chain(left, xs) && Chain(right, ys) && Separate(xs, ys) && Named(xs) && Named(ys)
    modifies NodeSet(xs)`next, NodeSet(xs)`prev, NodeSet(ys)`next, NodeSet(ys)`prev
    ensures Chain(result, old(Items(Merge(Entries(xs), Entries(ys), caseSensitive))))
    ensures result != null ==> (result == left || result == right) && result.prev == old(result.prev)
  {
    hide *;
    ghost var all := Merge(Entries(xs), Entries(ys), caseSensitive);
    ghost var a, b := xs, ys;
    ghost var done: seq<Node> := [];
    MergeStarts(xs, ys, left, right, caseSensitive);
    var first, second := left, right;
    var tail: Node? := null;
    result := null;
    while first != null && second != null
      invariant Completes(done, a, b, all, caseSensitive) && Merging(done, a, b, first, second)
      invariant LeftOf(a, xs) && LeftOf(b, ys)
      invariant Ends(done, result, tail)
      invariant tail != null ==> tail in NodeSet(xs) || tail in NodeSet(ys)
      invariant done != [] ==> a != [] || b != []
      invariant result == null ==> first == left && second == right
      invariant result == null && left != null ==> left.prev == old(left.prev)
      invariant result == null && right != null ==> right.prev == old(right.prev)
      invariant result != null ==> (result == left || result == right) && result.prev == old(result.prev)
      decreases |a| + |b|
    {
      HeadApart(done, a, b, first, second, result, tail);
      Heads(done, a, b, first, second);
      FirstOf(first, a);
      FirstOf(second, b);
      LeftOfTail(a, xs);
      LeftOfTail(b, ys);
      var smaller, rest, other;
      ghost var c, d;
      smaller, rest, other, c, d := MergeRound(first, second, result, tail, caseSensitive, done, a, b, all);
      LeftOfRound(a, c, xs);
      LeftOfRound(b, d, ys);
      if result == null {
        result := smaller;
      }
      tail := smaller;
      first, second, a, b, done := rest, other, c, d, done + [smaller];
    }
    result := MergeRest(first, second, result, tail, caseSensitive, done, a, b, xs, ys, all);
  }

  /** What `sort_list` does behind the merge loop. */
  method MergeRest(first: Node?, second: Node?, head: Node?, tail: Node?, caseSensitive: bool, ghost done: seq<Node>,
                   ghost a: seq<Node>, ghost b: seq<Node>, ghost xs: seq<Node>, ghost ys: seq<Node>,
                   ghost all: seq<Entry<Node>>)
    returns (result: Node?)
    requires first == null || second == null
    requires Completes(done, a, b, all, caseSensitive) && Merging(done, a, b, first, second)
    requires LeftOf(a, xs) && LeftOf(b, ys) && (done != [] ==> a != [] || b != [])
    requires Ends(done, head, tail)
    requires tail != null ==> tail in NodeSet(xs) || tail in NodeSet(ys)
    modifies NodeSet(xs)`next, NodeSet(xs)`prev, NodeSet(ys)`next, NodeSet(ys)`prev
    ensures Chain(result, Items(all))
    ensures result == if head != null then head else if first != null then first else second
    ensures result != null ==> result.prev == old(result.prev)
  {
    HeadApart(done, a, b, first, second, head, tail);
    hide Chain, Merge, Items, Entries, NodeSet, Completes, Merging, LeftOf, Named;
    result := head;
    Heads(done, a, b, first, second);
    CompletesEnds(done, a, b, all, caseSensitive);
    if a != [] { LeftOfTail(a, xs); }
    if b != [] { LeftOfTail(b, ys); }
    assert [] + a == a && [] + b == b;
    if first != null {
      if result == null { return first; }
      Append(tail, first, done, a, b, second);
    }
    if second != null {
      if result == null { return second; }
      Append(tail, second, done, b, a, first);
    }
  }

  // ---- Sorting ------------------------------------------------------------------------------

  /** The test that leaves a sorted list unmodified. */
  method TestSorted(list: Node?, caseSensitive: bool, ghost xs: seq<Node>) returns (sorted: bool)
    requires Chain(list, xs) && Named(xs)
    ensures sorted <==> StrictlySorted(Entries(xs), caseSensitive)
  {
    hide Chain, NoRepeats;
    ghost var es := Entries(xs);
    var current := list;
    ghost var i := 0;
    WalkAt(list, xs, 0);
    while current != null && current.next != null
          && CompareStrings(current.name.value, current.next.name.value, caseSensitive) < 0
      invariant 0 <= i <= |xs| && (i == |xs| ==> xs == [])
      invariant current == if i < |xs| then xs[i] else null
      invariant i < |xs| ==> xs[i].next == NextOf(xs, i) && xs[i].name.Some?
      invariant i + 1 < |xs| ==> xs[i + 1].name.Some?
      invariant forall k :: 0 < k <= i && k < |xs| ==> CompareKeys(es[k - 1], es[k], caseSensitive) < 0
      decreases |xs| - i
    {
      assert es[i] == Entry(xs[i].name.value, xs[i]) && es[i + 1] == Entry(xs[i + 1].name.value, xs[i + 1]);
      WalkAt(list, xs, i + 1);
      current := current.next;
      i := i + 1;
    }
    sorted := current == null || current.next == null;
    if !sorted {
      assert es[i] == Entry(xs[i].name.value, xs[i]) && es[i + 1] == Entry(xs[i + 1].name.value, xs[i + 1]);
      assert CompareKeys(es[i], es[i + 1], caseSensitive) >= 0;
    }
  }

  lemma WalkAt(head: Node?, xs: seq<Node>, i: nat)
    requires Chain(head, xs) && Named(xs)
    ensures head == HeadOf(xs)
    ensures i < |xs| ==> xs[i].next == NextOf(xs, i) && xs[i].name.Some?
    ensures i + 1 < |xs| ==> xs[i + 1].name.Some?
  {}

  /** The walk with two pointers that finds where the second half starts. */
  method FindMiddle(list: Node?, ghost xs: seq<Node>) returns (second: Node?)
    requires Walk(list, xs) && |xs| > 1
    ensures second == xs[(|xs| + 1) / 2]
  {
    second := list;
    var current := list;
    ghost var i := 0;
    while current != null
      invariant 0 <= i <= (|xs| + 1) / 2
      invariant second == xs[i]
      invariant current == if 2 * i < |xs| then xs[2 * i] else null
      decreases |xs| - i
    {
      second := second.next;
      current := current.next;
      if current != null {
        assert current == xs[2 * i + 1];
        current := current.next;
      }
      i := i + 1;
    }
  }

  /** Cutting the list in front of its second half. */
  method Split(second: Node, ghost xs: seq<Node>, ghost m: nat)
    requires 0 < m < |xs| && second == xs[m] && Chain(xs[0], xs)
    modifies NodeSet(xs)`next, second`prev
    ensures Chain(xs[0], xs[..m]) && Chain(second, xs[m..])
    ensures second.prev == null && xs[0] != second
  {
    assert second.prev == xs[m - 1] && xs[m - 1] in xs;
    second.prev.next := null;
    second.prev := null;
    ChainHalves(xs, m);
  }

  lemma EntriesAre(xs: seq<Node>)
    requires Named(xs)
    ensures |Entries(xs)| == |xs|
    ensures forall i :: 0 <= i < |xs| ==> Entries(xs)[i] == Entry(xs[i].name.value, xs[i])
  {}

  lemma FirstEntries(xs: seq<Node>, m: nat, a: seq<Node>)
    requires m <= |xs| && Named(xs) && a == xs[..m]
    ensures Named(a) && Entries(a) == Entries(xs)[..m]
  {
    assert forall i {:trigger a[i]} :: 0 <= i < |a| ==> a[i] == xs[i];
    EntriesAre(xs);
    EntriesAre(a);
    hide Entries;
    forall i | 0 <= i < |a| ensures Entries(a)[i] == Entries(xs)[..m][i] {}
  }

  lemma LastEntries(xs: seq<Node>, m: nat, b: seq<Node>)
    requires m <= |xs| && Named(xs) && b == xs[m..]
    ensures Named(b) && Entries(b) == Entries(xs)[m..]
  {
    assert forall i {:trigger b[i]} :: 0 <= i < |b| ==> b[i] == xs[m + i];
    EntriesAre(xs);
    EntriesAre(b);
    hide Entries;
    forall i | 0 <= i < |b| ensures Entries(b)[i] == Entries(xs)[m..][i] {}
  }

  lemma NodeSetHas(xs: seq<Node>)
    ensures forall n: Node :: n in NodeSet(xs) <==> n in xs
  {}

  lemma PartSet(xs: seq<Node>, a: seq<Node>)
    requires forall i :: 0 <= i < |a| ==> a[i] in xs
    ensures NodeSet(a) <= NodeSet(xs)
  {
    NodeSetHas(xs);
    NodeSetHas(a);
  }

  lemma SeparateSets(a: seq<Node>, b: seq<Node>)
    requires Separate(a, b)
    ensures NodeSet(a) !! NodeSet(b)
  {
    forall n: Node ensures n !in NodeSet(a) || n !in NodeSet(b) {
      if n in NodeSet(a) {
        NodeAt(a, n);
        if n in NodeSet(b) { NodeAt(b, n); }
      }
    }
  }

  lemma NodeAt(xs: seq<Node>, n: Node)
    ensures n in NodeSet(xs) <==> exists i :: 0 <= i < |xs| && xs[i] == n
  {
    NodeSetHas(xs);
  }

  lemma HalvesSeparate(xs: seq<Node>, m: nat, a: seq<Node>, b: seq<Node>)
    requires m <= |xs| && NoRepeats(xs) && a == xs[..m] && b == xs[m..]
    ensures Separate(a, b)
  {
    forall i, j | 0 <= i < |a| && 0 <= j < |b| ensures a[i] != b[j] {
      assert a[i] == xs[i] && b[j] == xs[m + j];
    }
  }

  lemma Halves(xs: seq<Node>, m: nat)
    requires m <= |xs| && Named(xs) && NoRepeats(xs)
    ensures Named(xs[..m]) && Named(xs[m..])
    ensures Entries(xs[..m]) == Entries(xs)[..m] && Entries(xs[m..]) == Entries(xs)[m..]
    ensures NodeSet(xs[..m]) <= NodeSet(xs) && NodeSet(xs[m..]) <= NodeSet(xs)
    ensures NodeSet(xs[..m]) !! NodeSet(xs[m..])
  {
    var a, b := xs[..m], xs[m..];
    PartSet(xs, a);
    PartSet(xs, b);
    hide *;
    HalvesSeparate(xs, m, a, b);
    SeparateSets(a, b);
    FirstEntries(xs, m, a);
    LastEntries(xs, m, b);
  }

  /** Sorted nodes are nodes of the list, under their names. */
  lemma SortedNodes(xs: seq<Node>, caseSensitive: bool)
    requires Named(xs)
    ensures var ys := Items(Sort(Entries(xs), caseSensitive));
            && NodeSet(ys) <= NodeSet(xs) && Named(ys) && Entries(ys) == Sort(Entries(xs), caseSensitive)
  {
    var es := Sort(Entries(xs), caseSensitive);
    var ys := Items(es);
    SortMembers(Entries(xs), caseSensitive);
    forall i | 0 <= i < |ys| ensures ys[i] in xs && ys[i].name == Some(es[i].key) && es[i].item == ys[i] {
      assert es[i] in Entries(xs);
      var j :| 0 <= j < |xs| && Entries(xs)[j] == es[i];
    }
    assert Named(ys);
    hide Sort;
    forall i | 0 <= i < |ys| ensures Entries(ys)[i] == es[i] {}
  }

  /** `sort_list`. */
  method SortList(list: Node?, caseSensitive: bool, ghost xs: seq<Node>) returns (result: Node?)
    requires Chain(list, xs) && Named(xs)
    modifies NodeSet(xs)`next, NodeSet(xs)`prev
    ensures Chain(result, old(Items(Sort(Entries(xs), caseSensitive))))
    ensures result != null ==> result.prev == if result == list then old(list.prev) else null
    decreases |xs|, 1
  {
    hide *;
    result := list;
    ChainIs(list, xs);
    LeftAsIs(xs, caseSensitive);
    if list == null || list.next == null { return; }
    var sorted := TestSorted(list, caseSensitive, xs);
    if sorted { return; }
    SortSplits(xs, caseSensitive);
    var second := FindMiddle(list, xs);
    result := SplitAndMerge(list, second, caseSensitive, xs, (|xs| + 1) / 2);
  }

  /** Cutting the list, sorting both parts, and merging them. */
  method SplitAndMerge(list: Node, middle: Node, caseSensitive: bool, ghost xs: seq<Node>, ghost m: nat)
    returns (result: Node?)
    requires 0 < m < |xs| && list == xs[0] && middle == xs[m]
    requires Chain(list, xs) && NoRepeats(xs) && Named(xs)
    modifies NodeSet(xs)`next, NodeSet(xs)`prev
    ensures Chain(result, old(Items(Merge(Sort(Entries(xs)[..m], caseSensitive),
                                          Sort(Entries(xs)[m..], caseSensitive), caseSensitive))))
    ensures result != null ==> result.prev == if result == list then old(list.prev) else null
    decreases |xs|, 0
  {
    hide *;
    ghost var a, b := xs[..m], xs[m..];
    Halves(xs, m);
    NodeSetHas(xs);
    NodeSetHas(a);
    assert a[0] == list;
    Split(middle, xs, m);
    SortedNodes(a, caseSensitive);
    SortedNodes(b, caseSensitive);
    ghost var c, d := Items(Sort(Entries(a), caseSensitive)), Items(Sort(Entries(b), caseSensitive));
    var first, second := SortHalves(list, middle, caseSensitive, a, b, c, d);
    SetsApart(c, d);
    result := MergeLists(first, second, caseSensitive, c, d);
  }

  /** The two recursive calls. */
  method SortHalves(left: Node, right: Node, caseSensitive: bool, ghost a: seq<Node>, ghost b: seq<Node>,
                    ghost c: seq<Node>, ghost d: seq<Node>)
    returns (first: Node?, second: Node?)
    requires Named(a) && Named(b) && NodeSet(a) !! NodeSet(b)
    requires Chain(left, a) && Chain(right, b)
    requires c == Items(Sort(Entries(a), caseSensitive)) && d == Items(Sort(Entries(b), caseSensitive))
    modifies NodeSet(a)`next, NodeSet(a)`prev, NodeSet(b)`next, NodeSet(b)`prev
    ensures Chain(first, c) && Chain(second, d)
    ensures Named(c) && Entries(c) == old(Sort(Entries(a), caseSensitive))
    ensures Named(d) && Entries(d) == old(Sort(Entries(b), caseSensitive))
    ensures first != null ==> first in NodeSet(a) && first.prev == if first == left then old(left.prev) else null
    ensures second != null ==> second in NodeSet(b) && second.prev == if second == right then old(right.prev) else null
    decreases if |a| < |b| then |b| else |a|, 2
  {
    hide *;
    NodeSetHas(a);
    NodeSetHas(b);
    SortedNodes(a, caseSensitive);
    SortedNodes(b, caseSensitive);
    NodeSetHas(c);
    NodeSetHas(d);
    first := SortList(left, caseSensitive, a);
    HeadIn(first, c);
    second := SortList(right, caseSensitive, b);
    HeadIn(second, d);
  }

  lemma HeadIn(head: Node?, xs: seq<Node>)
    requires Chain(head, xs)
    ensures head != null ==> head in NodeSet(xs)
  {
    NodeSetHas(xs);
  }

  lemma SetsApart(c: seq<Node>, d: seq<Node>)
    requires NodeSet(c) !! NodeSet(d)
    ensures Separate(c, d)
  {
    NodeSetHas(c);
    NodeSetHas(d);
    hide NodeSet;
    forall i, j | 0 <= i < |c| && 0 <= j < |d| ensures c[i] != d[j] {
      assert c[i] in c && d[j] in d;
    }
  }

  lemma LeftAsIs(xs: seq<Node>, caseSensitive: bool)
    requires Named(xs)
    ensures |xs| <= 1 || StrictlySorted(Entries(xs), caseSensitive) ==> Items(Sort(Entries(xs), caseSensitive)) == xs
  {}

  lemma SortSplits(xs: seq<Node>, caseSensitive: bool)
    requires Named(xs) && |xs| > 1 && !StrictlySorted(Entries(xs), caseSensitive)
    ensures var s, m := Entries(xs), (|xs| + 1) / 2;
            Sort(s, caseSensitive) == Merge(Sort(s[..m], caseSensitive), Sort(s[m..], caseSensitive), caseSensitive)
  {}

  lemma ChainIs(list: Node?, xs: seq<Node>)
    requires Chain(list, xs)
    ensures Walk(list, xs) && NoRepeats(xs)
    ensures list == if xs == [] then null else xs[0]
    ensures xs != [] ==> xs[0].next == if |xs| == 1 then null else xs[1]
  {
    assert xs != [] ==> xs[0].next == NextOf(xs, 0);
  }

  /**
   `sort_object`: the children end up as a chain, headed by a node that has the old head's `prev` if it
   is the old head, and none otherwise. A fully linked list stays one exactly when its first and its
   last child keep their places.
   */
  method SortObject(parent: Node, caseSensitive: bool, ghost xs: seq<Node>)
    requires Chain(parent.child, xs) && Named(xs)
    modifies parent`child, NodeSet(xs)`next, NodeSet(xs)`prev
    ensures Chain(parent.child, old(Items(Sort(Entries(xs), caseSensitive))))
    ensures |old(Items(Sort(Entries(xs), caseSensitive)))| == |xs|
    ensures var ys := old(Items(Sort(Entries(xs), caseSensitive)));
            xs != [] ==> ys[0].prev == if ys[0] == xs[0] then old(xs[0].prev) else null
    ensures var ys := old(Items(Sort(Entries(xs), caseSensitive)));
            old(Linked(parent, xs)) ==>
              (Linked(parent, ys) <==> xs == [] || (ys[0] == xs[0] && ys[|xs| - 1] == xs[|xs| - 1]))
  {
    ghost var ys := Items(Sort(Entries(xs), caseSensitive));
    ghost var linked := Linked(parent, xs);
    ghost var cached := if xs == [] then null else xs[0].prev;
    ChainIs(parent.child, xs);
    SortedNodes(xs, caseSensitive);
    parent.child := SortList(parent.child, caseSensitive, xs);
    TailCached(parent, xs, ys, linked, cached);
  }

  /** When the head of the sorted list knows its tail. */
  lemma TailCached(parent: Node, xs: seq<Node>, ys: seq<Node>, linked: bool, cached: Node?)
    requires Chain(parent.child, ys) && |ys| == |xs| && NodeSet(ys) <= NodeSet(xs)
    requires xs != [] ==> ys[0].prev == if ys[0] == xs[0] then cached else null
    requires linked && xs != [] ==> parent !in xs && cached == xs[|xs| - 1]
    ensures linked ==> (Linked(parent, ys) <==> xs == [] || (ys[0] == xs[0] && ys[|xs| - 1] == xs[|xs| - 1]))
  {
    NodeSetHas(xs);
    NodeSetHas(ys);
    assert linked ==> parent !in ys;
  }

  /** The sorted list holds exactly the nodes of the list, in non-decreasing order of their names. */
  lemma SortedListMeaning(xs: seq<Node>, caseSensitive: bool)
    requires Named(xs)
    ensures var ys := Items(Sort(Entries(xs), caseSensitive));
            && |ys| == |xs| && NodeSet(ys) == NodeSet(xs)
            && Named(ys) && NonDecreasing(Entries(ys), caseSensitive)
  {
    var es := Sort(Entries(xs), caseSensitive);
    SortedNodes(xs, caseSensitive);
    SortSorts(Entries(xs), caseSensitive);
    SortMembers(Entries(xs), caseSensitive);
    NodeSetHas(xs);
    NodeSetHas(Items(es));
    hide Sort, NodeSet, NonDecreasing;
    forall i | 0 <= i < |xs| ensures xs[i] in Items(es) {
      assert Entries(xs)[i] in es;
      var j :| 0 <= j < |es| && es[j] == Entries(xs)[i];
      assert Items(es)[j] == xs[i];
    }
  }
}

/**
 The operations on child lists, and what each does to the sequence of children. Every operation
 keeps `Linked`: an acyclic `next` chain, interior `prev` links that undo it, and the tail cached in
 the `prev` of the head.
 */
module ChildList {
  import opened Json
  import opened Nodes

  /** `get_array_item`. */
  method GetArrayItem(parent: Node?, index: nat, ghost xs: seq<Node>) returns (item: Node?)
    requires parent != null ==> Walk(parent.child, xs)
    ensures item == if parent != null && index < |xs| then xs[index] else null
  {
    item := null;
    if parent == null { return; }
    item := parent.child;
    var left := index;
    ghost var i := 0;
    while item != null && left > 0
      invariant 0 <= i <= |xs| && left == index - i
      invariant item == if i < |xs| then xs[i] else null
      decreases left
    {
      left := left - 1;
      item := item.next;
      i := i + 1;
    }
  }

  /** The node a possibly null pointer points to. */
  ghost function Target(n: Node?): set<Node> {
    if n == null then {} else {n}
  }

  /** A list that `item` is not part of. Its head has the child at `k`, or nothing, in `prev`. */
  ghost predicate Open(parent: Node, item: Node, xs: seq<Node>, k: nat)
    reads parent`child, xs`next, xs`prev
  {
    && Chain(parent.child, xs)
    && parent !in xs && item !in xs
    && (xs != [] ==> xs[0].prev == null || (k < |xs| && xs[0].prev == xs[k]))
  }

  // ---- From single links to the whole list --------------------------------------------------

  /** `ys` is `xs` without the child at `i`. */
  ghost predicate TakenOut(xs: seq<Node>, i: nat, ys: seq<Node>) {
    && i < |xs| && |ys| == |xs| - 1
    && forall j {:trigger ys[j]} :: 0 <= j < |ys| ==> ys[j] == xs[if j < i then j else j + 1]
  }

  /** The links around a removed child. */
  lemma RemovedChain(parent: Node, xs: seq<Node>, i: nat)
    requires i < |xs| && NoRepeats(xs) && parent !in xs
    requires parent.child == if i == 0 then NextOf(xs, 0) else xs[0]
    requires forall j {:trigger xs[j].next} :: 0 <= j < |xs| && j != i && j + 1 != i ==> xs[j].next == NextOf(xs, j)
    requires i > 0 ==> xs[i - 1].next == NextOf(xs, i)
    requires forall j {:trigger xs[j].prev} :: 0 < j < |xs| && j != i && j != i + 1 ==> xs[j].prev == xs[j - 1]
    requires 0 < i < |xs| - 1 ==> xs[i + 1].prev == xs[i - 1]
    ensures Chain(parent.child, Remove(xs, i)) && parent !in Remove(xs, i)
  {
    var ys := Remove(xs, i);
    hide Chain;
    assert TakenOut(xs, i, ys);
    RemainingChain(parent, xs, i, ys);
  }

  lemma RemainingChain(parent: Node, xs: seq<Node>, i: nat, ys: seq<Node>)
    requires i < |xs| && NoRepeats(xs) && parent !in xs
    requires parent.child == if i == 0 then NextOf(xs, 0) else xs[0]
    requires forall j {:trigger xs[j].next} :: 0 <= j < |xs| && j != i && j + 1 != i ==> xs[j].next == NextOf(xs, j)
    requires i > 0 ==> xs[i - 1].next == NextOf(xs, i)
    requires forall j {:trigger xs[j].prev} :: 0 < j < |xs| && j != i && j != i + 1 ==> xs[j].prev == xs[j - 1]
    requires 0 < i < |xs| - 1 ==> xs[i + 1].prev == xs[i - 1]
    requires TakenOut(xs, i, ys)
    ensures Chain(parent.child, ys) && parent !in ys
  {
    assert NoRepeats(ys);
    forall j | 0 <= j < |ys| ensures ys[j].next == NextOf(ys, j) {}
    forall j | 0 < j < |ys| ensures ys[j].prev == ys[j - 1] {}
  }

  /** ... and the tail recorded in the head. */
  lemma RemovedLinked(parent: Node, xs: seq<Node>, i: nat)
    requires i < |xs| && NoRepeats(xs) && parent !in xs
    requires parent.child == if i == 0 then NextOf(xs, 0) else xs[0]
    requires forall j {:trigger xs[j].next} :: 0 <= j < |xs| && j != i && j + 1 != i ==> xs[j].next == NextOf(xs, j)
    requires i > 0 ==> xs[i - 1].next == NextOf(xs, i)
    requires forall j {:trigger xs[j].prev} :: 0 < j < |xs| && j != i && j != i + 1 ==> xs[j].prev == xs[j - 1]
    requires 0 < i < |xs| - 1 ==> xs[i + 1].prev == xs[i - 1]
    requires |xs| > 1 ==> xs[if i == 0 then 1 else 0].prev == xs[if i == |xs| - 1 then i - 1 else |xs| - 1]
    ensures Linked(parent, Remove(xs, i))
  {
    RemovedChain(parent, xs, i);
    var ys := Remove(xs, i);
    if ys != [] {
      assert ys[0] == xs[if i == 0 then 1 else 0] && ys[|ys| - 1] == xs[if i == |xs| - 1 then i - 1 else |xs| - 1];
    }
  }

  /** `ys` is `xs` with `item` put in at `i`. */
  ghost predicate PutIn(xs: seq<Node>, i: nat, item: Node, ys: seq<Node>) {
    && i <= |xs| && |ys| == |xs| + 1 && ys[i] == item
    && (forall j {:trigger ys[j]} :: 0 <= j < i ==> ys[j] == xs[j])
    && (forall j {:trigger ys[j]} :: i < j < |ys| ==> ys[j] == xs[j - 1])
  }

  /** The links around an inserted child. */
  lemma InsertedLinked(parent: Node, xs: seq<Node>, i: nat, item: Node)
    requires i < |xs| && NoRepeats(xs) && parent !in xs && item !in xs && parent != item
    requires parent.child == if i == 0 then item else xs[0]
    requires forall j {:trigger xs[j].next} :: 0 <= j < |xs| && j + 1 != i ==> xs[j].next == NextOf(xs, j)
    requires i > 0 ==> xs[i - 1].next == item
    requires item.next == xs[i]
    requires forall j {:trigger xs[j].prev} :: 0 < j < |xs| && j != i ==> xs[j].prev == xs[j - 1]
    requires xs[i].prev == item
    requires item.prev == if i == 0 then xs[|xs| - 1] else xs[i - 1]
    requires i > 0 ==> xs[0].prev == xs[|xs| - 1]
    ensures Linked(parent, Insert(xs, i, item))
  {
    var ys := Insert(xs, i, item);
    hide Linked;
    assert PutIn(xs, i, item, ys);
    InsertedSequence(parent, xs, i, item, ys);
  }

  lemma InsertedSequence(parent: Node, xs: seq<Node>, i: nat, item: Node, ys: seq<Node>)
    requires i < |xs| && NoRepeats(xs) && parent !in xs && item !in xs && parent != item
    requires parent.child == if i == 0 then item else xs[0]
    requires forall j {:trigger xs[j].next} :: 0 <= j < |xs| && j + 1 != i ==> xs[j].next == NextOf(xs, j)
    requires i > 0 ==> xs[i - 1].next == item
    requires item.next == xs[i]
    requires forall j {:trigger xs[j].prev} :: 0 < j < |xs| && j != i ==> xs[j].prev == xs[j - 1]
    requires xs[i].prev == item
    requires item.prev == if i == 0 then xs[|xs| - 1] else xs[i - 1]
    requires i > 0 ==> xs[0].prev == xs[|xs| - 1]
    requires PutIn(xs, i, item, ys)
    ensures Linked(parent, ys)
  {
    assert NoRepeats(ys);
    forall j | 0 <= j < |ys| ensures ys[j].next == NextOf(ys, j) {}
    forall j | 0 < j < |ys| ensures ys[j].prev == ys[j - 1] {}
  }

  /** The links around an appended child. */
  lemma AppendedLinked(parent: Node, xs: seq<Node>, item: Node)
    requires xs != [] && NoRepeats(xs) && parent !in xs && item !in xs && parent != item
    requires parent.child == xs[0]
    requires forall j {:trigger xs[j].next} :: 0 <= j < |xs| - 1 ==> xs[j].next == NextOf(xs, j)
    requires xs[|xs| - 1].next == item
    requires forall j {:trigger xs[j].prev} :: 0 < j < |xs| ==> xs[j].prev == xs[j - 1]
    requires item.prev == xs[|xs| - 1] && xs[0].prev == item
    ensures Linked(parent, xs + [item]) <==> item.next == null
  {
    var ys := xs + [item];
    assert ys[|xs|] == item;
    if item.next == null {
      forall j | 0 <= j < |ys| ensures ys[j].next == NextOf(ys, j) {}
      forall j | 0 < j < |ys| ensures ys[j].prev == ys[j - 1] {}
    } else {
      assert ys[|xs|].next != NextOf(ys, |xs|);
    }
  }

  /** The links around a child put in the place of another. */
  lemma ReplacedLinked(parent: Node, xs: seq<Node>, i: nat, item: Node)
    requires i < |xs| && NoRepeats(xs) && parent !in xs && item !in xs && parent != item
    requires parent.child == if i == 0 then item else xs[0]
    requires forall j {:trigger xs[j].next} :: 0 <= j < |xs| && j != i && j + 1 != i ==> xs[j].next == NextOf(xs, j)
    requires i > 0 ==> xs[i - 1].next == item
    requires item.next == NextOf(xs, i)
    requires forall j {:trigger xs[j].prev} :: 0 < j < |xs| && j != i && j != i + 1 ==> xs[j].prev == xs[j - 1]
    requires i + 1 < |xs| ==> xs[i + 1].prev == item
    requires |xs| > 1 ==> item.prev == if i == 0 then xs[|xs| - 1] else xs[i - 1]
    requires |xs| == 1 ==> item.prev == item
    requires i > 0 ==> xs[0].prev == if i == |xs| - 1 then item else xs[|xs| - 1]
    ensures Linked(parent, xs[i := item])
  {
    var ys := xs[i := item];
    forall j | 0 <= j < |ys| ensures ys[j].next == NextOf(ys, j) {
      assert ys[j] == if j == i then item else xs[j];
    }
    forall j | 0 < j < |ys| ensures ys[j].prev == ys[j - 1] {
      assert ys[j] == if j == i then item else xs[j];
    }
  }

  // ---- The operations -----------------------------------------------------------------------

  /**
   `add_item_to_array`. The item goes behind the child that the head takes for the tail: whatever
   really follows that child is cut off, and when the head knows no tail the call succeeds and the
   item is lost. An item that still has a successor breaks the list, unless the list is empty.
   */
  method AddItemToArray(parent: Node?, item: Node?, ghost xs: seq<Node>, ghost k: nat) returns (ok: bool)
    requires parent != null && item != null && parent != item ==> Open(parent, item, xs, k)
    modifies Target(parent)`child, Target(item)`next, Target(item)`prev, xs`next, xs`prev
    ensures ok <==> parent != null && item != null && parent != item
    ensures ok && xs == [] ==> Linked(parent, [item])
    ensures ok && old(xs != [] && xs[0].prev != null) ==>
              (Linked(parent, xs[..k + 1] + [item]) <==> old(item.next) == null)
    ensures ok && old(xs != [] && xs[0].prev == null) ==> Chain(parent.child, xs) && xs[0].prev == null
  {
    ok := false;
    if item == null || parent == null || parent == item { return; }
    var child := parent.child;
    if child == null {
      parent.child := item;
      item.prev := item;
      item.next := null;
    } else if child.prev != null {
      child.prev.next := item;
      item.prev := child.prev;
      parent.child.prev := item;
      AppendedLinked(parent, xs[..k + 1], item);
    }
    ok := true;
  }

  /** `cJSON_AddItemToArray` on a fully linked list. */
  method AppendItem(parent: Node?, item: Node, ghost xs: seq<Node>) returns (ok: bool)
    requires parent != null ==> Linked(parent, xs) && item !in xs && parent != item
    modifies Target(parent)`child, item`next, item`prev, xs`next, xs`prev
    ensures ok <==> parent != null
    ensures ok ==> (Linked(parent, Insert(xs, |xs|, item)) <==> xs == [] || old(item.next) == null)
  {
    ok := AddItemToArray(parent, item, xs, if xs == [] then 0 else |xs| - 1);
    hide Linked;
    assert Insert(xs, |xs|, item) == xs[..|xs|] + [item];
    assert xs == [] ==> Insert(xs, |xs|, item) == [item];
  }

  /**
   `cJSON_DetachItemViaPointer`. The next head takes over what the head has recorded for the tail, and
   taking out the last child of several puts that record right; a fully linked list stays one.
   */
  method DetachItemViaPointer(parent: Node?, item: Node?, ghost xs: seq<Node>, ghost i: nat) returns (r: Node?)
    requires parent != null && item != null ==>
               Chain(parent.child, xs) && parent !in xs && i < |xs| && xs[i] == item
    modifies Target(parent)`child, xs`next, xs`prev
    ensures r == if parent == null then null else item
    ensures parent != null && item != null ==>
              && Chain(parent.child, Remove(xs, i)) && parent !in Remove(xs, i)
              && item.next == null && item.prev == null
              && (|xs| > 1 ==> Remove(xs, i)[0].prev == if 0 < i == |xs| - 1 then xs[i - 1] else old(xs[0].prev))
    ensures parent != null && item != null && old(Linked(parent, xs)) ==> Linked(parent, Remove(xs, i))
  {
    r := null;
    if parent == null || item == null { return; }
    assert xs[i].next == NextOf(xs, i) && (i > 0 ==> xs[i].prev == xs[i - 1]);
    if item != parent.child {
      item.prev.next := item.next;
    }
    if item.next != null {
      item.next.prev := item.prev;
    }
    if item == parent.child {
      parent.child := item.next;
    } else if item.next == null {
      parent.child.prev := item.prev;
    }
    item.prev := null;
    item.next := null;
    r := item;
    RemovedChain(parent, xs, i);
    assert |xs| > 1 ==> Remove(xs, i)[0] == xs[if i == 0 then 1 else 0];
    assert i == |xs| - 1 > 0 ==> Remove(xs, i)[|xs| - 2] == xs[i - 1];
  }

  /** `cJSON_InsertItemInArray`: behind the end it appends, and then the item must have no successor. */
  method InsertItemInArray(parent: Node?, which: int, item: Node, ghost xs: seq<Node>) returns (ok: bool)
    requires parent != null ==> Linked(parent, xs) && item !in xs && parent != item
    modifies Target(parent)`child, item`next, item`prev, xs`next, xs`prev
    ensures ok <==> parent != null && which >= 0
    ensures ok && which < |xs| ==> Linked(parent, Insert(xs, which, item))
    ensures ok && which >= |xs| ==> (Linked(parent, Insert(xs, |xs|, item)) <==> xs == [] || old(item.next) == null)
    ensures !ok && parent != null ==> Linked(parent, xs)
  {
    ok := false;
    if which < 0 { return; }
    var after := GetArrayItem(parent, which, xs);
    if after == null {
      ok := AppendItem(parent, item, xs);
      return;
    }
    assert which > 0 ==> xs[which].prev == xs[which - 1];
    item.next := after;
    item.prev := after.prev;
    after.prev := item;
    if after == parent.child {
      parent.child := item;
    } else {
      item.prev.next := item;
    }
    InsertedLinked(parent, xs, which, item);
    ok := true;
  }

  /** `cJSON_ReplaceItemViaPointer`, up to the deletion of the replaced item. */
  method ReplaceItemViaPointer(parent: Node?, item: Node?, replacement: Node?, ghost xs: seq<Node>, ghost i: nat)
    returns (ok: bool)
    requires parent != null && item != null ==> Linked(parent, xs) && i < |xs| && xs[i] == item
    requires replacement != item ==> replacement !in xs && replacement != parent
    modifies Target(parent)`child, Target(replacement)`next, Target(replacement)`prev, xs`next, xs`prev
    ensures ok <==> parent != null && replacement != null && item != null
    ensures ok ==> Linked(parent, xs[i := replacement])
    ensures ok && replacement != item ==> item.next == null && item.prev == null
  {
    ok := false;
    if parent == null || replacement == null || item == null { return; }
    ok := true;
    if replacement == item {
      assert xs[i := replacement] == xs;
      return;
    }
    assert xs[i].next == NextOf(xs, i) && (i > 0 ==> xs[i].prev == xs[i - 1]);
    replacement.next := item.next;
    replacement.prev := item.prev;
    if replacement.next != null {
      replacement.next.prev := replacement;
    }
    if parent.child == item {
      if parent.child.prev == parent.child {
        replacement.prev := replacement;
      }
      parent.child := replacement;
    } else {
      if replacement.prev != null {
        replacement.prev.next := replacement;
      }
      if replacement.next == null {
        parent.child.prev := replacement;
      }
    }
    item.next := null;
    item.prev := null;
    ReplacedLinked(parent, xs, i, replacement);
  }

  /** `detach_item_from_array`. */
  method DetachItemFromArray(parent: Node, which: nat, ghost xs: seq<Node>) returns (c: Node?)
    requires Linked(parent, xs)
    modifies parent`child, xs`next, xs`prev
    ensures which < |xs| ==> c == xs[which] && Linked(parent, Remove(xs, which)) && c.next == null && c.prev == null
    ensures which >= |xs| ==> c == null && Linked(parent, xs)
  {
    c := parent.child;
    var left := which;
    ghost var i := 0;
    while c != null && left > 0
      invariant 0 <= i <= |xs| && left == which - i
      invariant c == if i < |xs| then xs[i] else null
      invariant Linked(parent, xs)
      decreases left
    {
      c := c.next;
      left := left - 1;
      i := i + 1;
    }
    if c == null { return; }
    assert xs[i].next == NextOf(xs, i) && (i > 0 ==> xs[i].prev == xs[i - 1]);
    if c != parent.child {
      c.prev.next := c.next;
    }
    if c.next != null {
      c.next.prev := c.prev;
    }
    if c == parent.child {
      parent.child := c.next;
    } else if c.next == null {
      parent.child.prev := c.prev;
    }
    c.prev := null;
    c.next := null;
    RemovedLinked(parent, xs, i);
  }

  /** `insert_item_in_array`: an index behind the end is refused, at the end it appends. */
  method InsertItem(parent: Node, which: nat, item: Node, ghost xs: seq<Node>) returns (ok: bool)
    requires Linked(parent, xs) && item !in xs && parent != item
    modifies parent`child, item`next, item`prev, xs`next, xs`prev
    ensures ok <==> which <= |xs|
    ensures which < |xs| ==> Linked(parent, Insert(xs, which, item))
    ensures which == |xs| ==> (Linked(parent, Insert(xs, which, item)) <==> xs == [] || old(item.next) == null)
    ensures !ok ==> Linked(parent, xs)
  {
    var child := parent.child;
    var left := which;
    ghost var i := 0;
    while child != null && left > 0
      invariant 0 <= i <= |xs| && left == which - i
      invariant child == if i < |xs| then xs[i] else null
      invariant Linked(parent, xs) && item.next == old(item.next)
      decreases left
    {
      child := child.next;
      left := left - 1;
      i := i + 1;
    }
    ok := false;
    if left > 0 { return; }
    if child == null {
      ok := AppendItem(parent, item, xs);
      return;
    }
    assert i > 0 ==> xs[i].prev == xs[i - 1];
    item.next := child;
    item.prev := child.prev;
    child.prev := item;
    if child == parent.child {
      parent.child := item;
    } else {
      item.prev.next := item;
    }
    InsertedLinked(parent, xs, i, item);
    ok := true;
  }
}

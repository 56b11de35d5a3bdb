/**
 cJSON nodes on the heap, and the doubly linked list of their children: `next` runs from the head to
 a null pointer, `prev` runs back, and the `prev` of the head caches the tail.
 */
module Nodes {
  import opened CString

  class Node {
    var next: Node?
    var prev: Node?
    var child: Node?
    var kind: nat
    var reference: bool
    var valueInt: int
    var number: real
    var text: Option<string>
    var name: Option<string>

    /** `cJSON_New_Item`: everything cleared. */
    constructor ()
      ensures next == null && prev == null && child == null
      ensures kind == 0 && !reference && valueInt == 0 && number == 0.0 && text == None && name == None
    {
      next, prev, child := null, null, null;
      kind, reference, valueInt, number, text, name := 0, false, 0, 0.0, None, None;
    }
  }

  /** What the `next` pointer of the node at `i` should be. */
  ghost function NextOf(xs: seq<Node>, i: nat): Node? {
    if i + 1 < |xs| then xs[i + 1] else null
  }

  ghost function HeadOf(xs: seq<Node>): Node? {
    if xs == [] then null else xs[0]
  }

  ghost predicate NoRepeats(xs: seq<Node>) {
    forall i, j :: 0 <= i < j < |xs| ==> xs[i] != xs[j]
  }

  /** Following `next` from `head` visits exactly `xs`. */
  ghost predicate Walk(head: Node?, xs: seq<Node>)
    reads xs`next
  {
    head == HeadOf(xs) && forall i {:trigger xs[i].next} :: 0 <= i < |xs| ==> xs[i].next == NextOf(xs, i)
  }

  /** Inside the list, `prev` undoes `next`. The `prev` of the head is not looked at. */
  ghost predicate Chain(head: Node?, xs: seq<Node>)
    reads xs`next, xs`prev
  {
    && Walk(head, xs)
    && NoRepeats(xs)
    && forall i {:trigger xs[i].prev} :: 0 < i < |xs| ==> xs[i].prev == xs[i - 1]
  }

  /** `xs` are the children of `parent`, linked as every operation expects them. */
  ghost predicate Linked(parent: Node, xs: seq<Node>)
    reads parent`child, xs`next, xs`prev
  {
    && Chain(parent.child, xs)
    && parent !in xs
    && (xs != [] ==> xs[0].prev == xs[|xs| - 1])
  }
}

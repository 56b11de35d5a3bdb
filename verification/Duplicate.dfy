/**
 `cJSON_Duplicate`: a deep copy on fresh nodes, with every child list linked as the list operations
 expect, whatever the `prev` links of the original were.
 */
module Duplicate {
  import opened Compare
  import opened CString
  import opened Json
  import opened Nodes

  /** A node, and the trees of its children in list order. */
  datatype Shape = Shape(node: Node, kids: seq<Shape>)

  /** What a tree holds, without its addresses. */
  datatype Picture =
    Picture(kind: nat, reference: bool, valueInt: int, number: real, text: Option<string>, name: Option<string>,
            kids: seq<Picture>)

  ghost function Roots(ts: seq<Shape>): seq<Node> {
    seq(|ts|, i requires 0 <= i < |ts| => ts[i].node)
  }

  /** The nodes below the root. */
  ghost function Inner(t: Shape): (r: set<Node>)
    ensures forall i :: 0 <= i < |t.kids| ==> Footprint(t.kids[i]) <= r
    decreases t, 0
  {
    set i, n | 0 <= i < |t.kids| && n in Footprint(t.kids[i]) :: n
  }

  ghost function Footprint(t: Shape): (r: set<Node>)
    ensures t.node in r
    decreases t, 1
  {
    {t.node} + Inner(t)
  }

  /** The `child` and `next` pointers lead to the nodes of the shape. Sharing is not excluded. */
  ghost predicate Describes(t: Shape)
    reads Footprint(t)
    decreases t
  {
    && Walk(t.node.child, Roots(t.kids))
    && forall i :: 0 <= i < |t.kids| ==> Describes(t.kids[i])
  }

  ghost predicate Apart(ts: seq<Shape>) {
    forall i, j :: 0 <= i < j < |ts| ==> Footprint(ts[i]) !! Footprint(ts[j])
  }

  /** A proper tree: no node occurs twice, and every child list is fully linked. */
  ghost predicate Tree(t: Shape)
    reads t.node`child, Inner(t)
    decreases t
  {
    && Linked(t.node, Roots(t.kids))
    && t.node !in Inner(t)
    && Apart(t.kids)
    && forall i :: 0 <= i < |t.kids| ==> Tree(t.kids[i])
  }

  ghost function PictureOf(t: Shape): Picture
    reads t.node`kind, t.node`reference, t.node`valueInt, t.node`number, t.node`text, t.node`name, Inner(t)
    decreases t
  {
    Picture(t.node.kind, t.node.reference, t.node.valueInt, t.node.number, t.node.text, t.node.name,
            seq(|t.kids|, i requires 0 <= i < |t.kids| reads Inner(t) => PictureOf(t.kids[i])))
  }

  /** A copy owns what it holds: no node of it is a reference. */
  function Owned(p: Picture): Picture {
    p.(reference := false, kids := seq(|p.kids|, i requires 0 <= i < |p.kids| => Owned(p.kids[i])))
  }

  lemma FootprintIs(t: Shape)
    ensures Footprint(t) == {t.node} + Inner(t)
  {}

  lemma InFootprint(t: Shape, n: Node)
    ensures n in Footprint(t) <==> n == t.node || n in Inner(t)
  {}

  lemma RootOutside(t: Shape)
    requires Tree(t)
    ensures t.node !in Inner(t)
  {}

  /** All nodes below these roots. */
  ghost function InnerAll(ts: seq<Shape>): (r: set<Node>)
    ensures forall i :: 0 <= i < |ts| ==> Inner(ts[i]) <= r
  {
    set i, n | 0 <= i < |ts| && n in Inner(ts[i]) :: n
  }

  /** These trees are copies of the pictures, apart from each other. */
  ghost predicate Copies(made: seq<Shape>, originals: seq<Picture>)
    reads Roots(made)`child, Roots(made)`kind, Roots(made)`reference, Roots(made)`valueInt
    reads Roots(made)`number, Roots(made)`text, Roots(made)`name, InnerAll(made)
  {
    && |made| <= |originals|
    && Apart(made)
    && forall i :: 0 <= i < |made| ==>
         && Roots(made)[i] == made[i].node
         && Tree(made[i]) && PictureOf(made[i]) == Owned(originals[i])
  }

  /** The roots of copies are not below any of them. */
  lemma RootsOutside(made: seq<Shape>, originals: seq<Picture>)
    requires Copies(made, originals)
    ensures forall i :: 0 <= i < |made| ==> made[i].node !in InnerAll(made)
    ensures NoRepeats(Roots(made))
  {
    hide Tree, PictureOf, Owned, Inner, Footprint;
    forall i, j | 0 <= i < |made| && 0 <= j < |made| ensures made[i].node !in Inner(made[j]) {
      RootOutside(made[i]);
      InFootprint(made[i], made[i].node);
      InFootprint(made[j], made[i].node);
      if i < j { assert Footprint(made[i]) !! Footprint(made[j]); }
      if j < i { assert Footprint(made[j]) !! Footprint(made[i]); }
    }
    forall i, j | 0 <= i < j < |made| ensures Roots(made)[i] != Roots(made)[j] {
      assert Footprint(made[i]) !! Footprint(made[j]);
      InFootprint(made[i], made[i].node);
      InFootprint(made[j], made[j].node);
    }
  }

  /** One more copy. */
  lemma CopiesGrow(made: seq<Shape>, t: Shape, originals: seq<Picture>)
    requires Copies(made, originals) && |made| < |originals|
    requires Tree(t) && PictureOf(t) == Owned(originals[|made|])
    requires Footprint(t) !! InnerAll(made) && forall i :: 0 <= i < |made| ==> made[i].node !in Footprint(t)
    ensures Copies(made + [t], originals)
    ensures Roots(made + [t]) == Roots(made) + [t.node]
    ensures InnerAll(made + [t]) == InnerAll(made) + Inner(t)
  {
    hide Tree, PictureOf, Owned, Inner, Footprint;
    var more := made + [t];
    forall i, j | 0 <= i < j < |more| ensures Footprint(more[i]) !! Footprint(more[j]) {
      if j < |made| {
        assert Footprint(made[i]) !! Footprint(made[j]);
      } else {
        forall n | n in Footprint(made[i]) ensures n !in Footprint(t) {
          InFootprint(made[i], n);
          assert Inner(made[i]) <= InnerAll(made);
        }
      }
    }
    InnerAllGrows(made, t);
  }

  lemma InnerAllGrows(made: seq<Shape>, t: Shape)
    ensures InnerAll(made + [t]) == InnerAll(made) + Inner(t)
  {
    hide Inner;
    var more := made + [t];
    assert forall i :: 0 <= i < |made| ==> more[i] == made[i];
    assert more[|made|] == t;
    forall n ensures n in InnerAll(more) <==> n in InnerAll(made) + Inner(t) {
      if n in InnerAll(more) {
        var i :| 0 <= i < |more| && n in Inner(more[i]);
        assert i < |made| ==> n in Inner(made[i]);
      }
      if n in InnerAll(made) {
        var i :| 0 <= i < |made| && n in Inner(made[i]);
        assert n in Inner(more[i]);
      }
    }
  }

  /** The node carries the payload of the picture. Whether it is a reference does not matter. */
  ghost predicate Carries(n: Node, p: Picture)
    reads n`kind, n`valueInt, n`number, n`text, n`name
  {
    n.kind == p.kind && n.valueInt == p.valueInt && n.number == p.number && n.text == p.text && n.name == p.name
  }

  ghost predicate Bears(copy: Node, p: Picture)
    reads copy`kind, copy`reference, copy`valueInt, copy`number, copy`text, copy`name
  {
    Carries(copy, p) && !copy.reference
  }

  /** All nodes of these trees lie within `used`. */
  ghost predicate Within(ts: seq<Shape>, used: set<Node>) {
    forall i :: 0 <= i < |ts| ==> Footprint(ts[i]) <= used
  }

  lemma InnerWithin(ts: seq<Shape>, used: set<Node>)
    requires Within(ts, used)
    ensures InnerAll(ts) <= used
    ensures forall i :: 0 <= i < |ts| ==> Roots(ts)[i] in used
  {
    hide Inner, Footprint;
    forall i, n | 0 <= i < |ts| && n in Inner(ts[i]) ensures n in used { InFootprint(ts[i], n); }
    forall i | 0 <= i < |ts| ensures Roots(ts)[i] in used { InFootprint(ts[i], ts[i].node); }
  }

  lemma InnerOfCopy(copy: Node, kids: seq<Shape>, used: set<Node>)
    requires Within(kids, used)
    ensures Inner(Shape(copy, kids)) <= used
  {
    hide Footprint;
  }

  lemma PictureKids(t: Shape)
    ensures |PictureOf(t).kids| == |t.kids|
    ensures forall i :: 0 <= i < |t.kids| ==> PictureOf(t).kids[i] == PictureOf(t.kids[i])
  {}

  /** The finished copy, from its children. */
  lemma CopyIsTree(copy: Node, kids: seq<Shape>, used: set<Node>)
    requires Linked(copy, Roots(kids)) && copy !in used && Within(kids, used)
    requires Apart(kids) && forall i :: 0 <= i < |kids| ==> Tree(kids[i])
    ensures Tree(Shape(copy, kids))
    ensures Footprint(Shape(copy, kids)) <= {copy} + used
  {
    var made := Shape(copy, kids);
    InnerOfCopy(copy, kids, used);
    FootprintIs(made);
    hide Inner, Footprint, Linked, Apart, Within;
  }

  lemma CopyIsPicture(copy: Node, kids: seq<Shape>, p: Picture)
    requires Bears(copy, p) && |kids| == |p.kids|
    requires forall i :: 0 <= i < |kids| ==> PictureOf(kids[i]) == Owned(p.kids[i])
    ensures PictureOf(Shape(copy, kids)) == Owned(p)
  {
    hide Inner, Footprint;
    PictureKids(Shape(copy, kids));
    assert PictureOf(Shape(copy, kids)).kids == Owned(p).kids;
  }

  lemma CopyFinished(copy: Node, kids: seq<Shape>, p: Picture, used: set<Node>)
    requires Bears(copy, p)
    requires Linked(copy, Roots(kids)) && copy !in used && Within(kids, used)
    requires Copies(kids, p.kids) && |kids| == |p.kids|
    ensures Tree(Shape(copy, kids))
    ensures PictureOf(Shape(copy, kids)) == Owned(p)
    ensures Footprint(Shape(copy, kids)) <= {copy} + used
  {
    hide Tree, PictureOf, Owned, Inner, Footprint, Linked, Apart, Within;
    CopyIsTree(copy, kids, used);
    CopyIsPicture(copy, kids, p);
  }

  /** A new node with the payload of another. */
  method CopyPayload(item: Node, ghost p: Picture) returns (copy: Node)
    requires Carries(item, p)
    ensures fresh(copy) && Bears(copy, p)
    ensures copy.next == null && copy.prev == null && copy.child == null
  {
    copy := new Node();
    copy.kind := item.kind;
    copy.valueInt := item.valueInt;
    copy.number := item.number;
    copy.text := item.text;
    copy.name := item.name;
  }

  ghost function Last(next: Node?): set<Node> {
    if next == null then {} else {next}
  }

  /** Hanging one more copy behind `next`. */
  method Crosswire(copy: Node, next: Node?, newChild: Node, ghost xs: seq<Node>)
    requires Chain(copy.child, xs) && newChild !in xs && newChild.next == null
    requires next == if xs == [] then null else xs[|xs| - 1]
    modifies copy`child, newChild`prev, Last(next)`next
    ensures Chain(copy.child, xs + [newChild])
  {
    if next != null {
      next.next := newChild;
      newChild.prev := next;
    } else {
      copy.child := newChild;
    }
    ghost var ys := xs + [newChild];
    assert ys[|xs|] == newChild;
    forall j | 0 <= j < |ys| ensures ys[j].next == NextOf(ys, j) {}
    forall j | 0 < j < |ys| ensures ys[j].prev == ys[j - 1] {}
  }

  /** The `prev` of the first copy gets the tail. */
  method CacheTail(copy: Node, tail: Node?, ghost xs: seq<Node>)
    requires Chain(copy.child, xs) && copy !in xs
    requires tail == if xs == [] then null else xs[|xs| - 1]
    modifies Last(HeadOf(xs))`prev
    ensures Linked(copy, xs)
  {
    if copy.child != null {
      copy.child.prev := tail;
    }
  }

  lemma DescribesHead(t: Shape)
    requires Describes(t)
    ensures t.node.child == if t.kids == [] then null else t.kids[0].node
  {}

  lemma PayloadOf(t: Shape)
    ensures Carries(t.node, PictureOf(t))
  {}

  lemma NoCopies(originals: seq<Picture>)
    ensures Copies([], originals) && Roots([]) == [] && Within([], {}) && Chain(null, [])
  {}

  /** `cJSON_Duplicate`. */
  method Duplicate(item: Node, recurse: bool, ghost t: Shape, ghost all: set<Node>) 
    returns (copy: Node, ghost made: Shape, ghost nodes: set<Node>)
    requires t.node == item && Describes(t) && Footprint(t) <= all
    ensures made.node == copy && Tree(made) && Footprint(made) == nodes && fresh(nodes)
    ensures copy.next == null && copy.prev == null
    ensures PictureOf(made) == Owned(old(if recurse then PictureOf(t) else PictureOf(t).(kids := [])))
    decreases t, 1
  {
    hide Tree, PictureOf, Owned, Inner, Footprint, InnerAll, Copies, Within, Carries, Chain, Walk, Linked, Describes;
    ghost var p := if recurse then PictureOf(t) else PictureOf(t).(kids := []);
    PayloadOf(t);
    DescribesHead(t);
    PictureKids(t);
    FootprintIs(t);
    copy := CopyPayload(item, p);
    ghost var kids: seq<Shape> := [];
    ghost var used: set<Node> := {};
    NoCopies(p.kids);
    if !recurse {
      made := Shape(copy, kids);
      CacheTail(copy, null, []);
      NoCopies(p.kids);
      CopyFinished(copy, kids, p, used);
      nodes := Footprint(made);
      return;
    }
    var child := item.child;
    var next: Node? := null;
    while child != null
      invariant next != null ==> next in used
      invariant |kids| <= |t.kids| && child == if |kids| < |t.kids| then t.kids[|kids|].node else null
      invariant copy.next == null && copy.prev == null && Bears(copy, p)
      invariant fresh(used) && copy !in used && Within(kids, used)
      invariant Copies(kids, p.kids)
      invariant Chain(copy.child, Roots(kids))
      invariant next == if kids == [] then null else kids[|kids| - 1].node
      invariant Describes(t) && PictureOf(t) == p
      decreases |t.kids| - |kids|
    {
      child, next, kids, used := CopyChild(copy, child, next, t, all, kids, used);
    }
    InnerWithin(kids, used);
    RootsOutside(kids, p.kids);
    assert kids != [] ==> Roots(kids)[|kids| - 1] == next;
    CacheTail(copy, next, Roots(kids));
    made := Shape(copy, kids);
    CopyFinished(copy, kids, p, used);
    nodes := Footprint(made);
  }

  /** One round of the loop over the children. */
  method CopyChild(copy: Node, child: Node, next: Node?, ghost t: Shape, ghost all: set<Node>,
                   ghost kids: seq<Shape>, ghost used: set<Node>)
    returns (later: Node?, tail: Node, ghost more: seq<Shape>, ghost now: set<Node>)
    requires Describes(t) && |kids| < |t.kids| && child == t.kids[|kids|].node
    requires Footprint(t) <= all && all !! {copy} + used && copy !in used && Within(kids, used)
    requires Copies(kids, PictureOf(t).kids) && Chain(copy.child, Roots(kids))
    requires next == if kids == [] then null else kids[|kids| - 1].node
    modifies copy`child, Last(next)`next
    ensures |more| == |kids| + 1 && more[|kids|].node == tail
    ensures later == if |more| < |t.kids| then t.kids[|more|].node else null
    ensures tail in now && fresh(now - used) && copy !in now && Within(more, now)
    ensures Copies(more, old(PictureOf(t)).kids) && Chain(copy.child, Roots(more))
    decreases t, 0
  {
    hide Tree, PictureOf, Owned, Inner, Footprint, InnerAll, Copies, Within;
    ghost var p, i := PictureOf(t), |kids|;
    PictureKids(t);
    FootprintIs(t);
    InnerWithin(kids, used);
    RootsOutside(kids, p.kids);
    assert Roots(t.kids)[i] == child && child.next == NextOf(Roots(t.kids), i);
    FootprintIs(t.kids[i]);
    ghost var shape, nodes;
    tail, shape, nodes := Duplicate(child, true, t.kids[i], all);
    FootprintIs(shape);
    RootOutside(shape);
    assert next != null ==> Roots(kids)[i - 1] == next && next in used;
    later := child.next;
    more := kids + [shape];
    now := used + nodes;
    Crosswire(copy, next, tail, Roots(kids));
    CopiesGrow(kids, shape, p.kids);
    WithinGrows(kids, shape, used);
  }

  lemma WithinGrows(ts: seq<Shape>, t: Shape, used: set<Node>)
    requires Within(ts, used)
    ensures Within(ts + [t], used + Footprint(t))
  {}

  // ---- The tree a picture stands for --------------------------------------------------------

  function TextOf(text: Option<string>): string {
    if text.Some? then text.value else ""
  }

  /** The JSON tree of a picture. A node of no known kind counts as invalid. */
  function ValueOf(p: Picture): Value {
    match p.kind
    case 1 => False
    case 2 => True
    case 4 => Null
    case 8 => Number(p.number)
    case 16 => String(TextOf(p.text))
    case 32 => Array(seq(|p.kids|, i requires 0 <= i < |p.kids| => ValueOf(p.kids[i])))
    case 64 => Object(seq(|p.kids|, i requires 0 <= i < |p.kids| => Entry(TextOf(p.kids[i].name), ValueOf(p.kids[i]))))
    case _ => Invalid
  }

  /** Clearing the reference bits leaves the JSON tree as it is. */
  lemma {:induction false} OwnedSameValue(p: Picture)
    ensures ValueOf(Owned(p)) == ValueOf(p)
  {
    var q := Owned(p);
    forall i | 0 <= i < |p.kids| ensures ValueOf(q.kids[i]) == ValueOf(p.kids[i]) && q.kids[i].name == p.kids[i].name
    {
      OwnedSameValue(p.kids[i]);
    }
    if p.kind == 32 {
      assert ValueOf(q).items == ValueOf(p).items;
    } else if p.kind == 64 {
      assert ValueOf(q).members == ValueOf(p).members;
    }
  }

  /** `cJSON_Compare` accepts a tree and its recursive duplicate. */
  lemma DuplicateComparesEqual(original: Picture, copy: Picture)
    requires copy == Owned(original) && Tame(ValueOf(original), ANY_KEY)
    ensures CompareValues(ValueOf(original), ValueOf(copy), true)
  {
    OwnedSameValue(original);
    CompareIsEquality(ValueOf(original), ValueOf(original));
  }
}

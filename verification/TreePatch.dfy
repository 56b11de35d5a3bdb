/**
 JSON Patch on trees with recorded tails, as the code runs it on child lists. Every status is the one of
 `Patch`; so is the document, as long as no `test` has moved the first or last member of an object.
 */
module TreePatch {
  import opened Compare
  import opened CString
  import opened Digits
  import opened Json
  import opened Patch
  import opened Pointer
  import opened Tails
  import opened Trees
  import opened Visits

  datatype TreeDetached = NotThere | Taken(tree: Tree, item: Tree)

  function WithoutChildTree(t: Tree, i: nat): (r: Tree)
    requires i < ChildCount(Plain(t))
    ensures Plain(r) == WithoutChild(Plain(t), i)
    ensures Whole(t) ==> Whole(r)
  {
    match t
    case List(items) =>
      assert PlainItems(Remove(items, i)) == Remove(PlainItems(items), i);
      List(Remove(items, i))
    case Record(members, tail) =>
      var l := Dropped(Tailed(members, tail), i);
      assert PlainMembers(l.children) == Remove(PlainMembers(members), i);
      DroppedComplete(Tailed(members, tail), i);
      Record(l.children, l.tail)
  }

  /** `detach_path`. */
  function DetachTree(t: Tree, path: string, caseSensitive: bool): (r: TreeDetached)
    ensures var d := DetachPath(Plain(t), path, caseSensitive);
            if r.NotThere? then d == NotFound else d == Detached(Plain(r.tree), Plain(r.item))
    ensures Whole(t) && r.Taken? ==> Whole(r.tree) && Whole(r.item)
  {
    match SplitLast(path)
    case NoSlash => NotThere
    case Split(parentPath, child) =>
      match GetItem(Plain(t), parentPath, caseSensitive)
      case None => NotThere
      case Some(a) =>
        var parent := TreeAt(t, a);
        match DetachChild(Plain(parent), DecodeInPlace(child))
        case None => NotThere
        case Some(i) => Taken(TreePut(t, a, WithoutChildTree(parent, i)), ChildTree(parent, i))
  }

  datatype TreePatched = TreePatched(tree: Tree, status: int)

  /** Deleting the member and appending it anew, on the list as it is linked. */
  function SetMember(members: seq<Entry<Tree>>, tail: Tail, name: string, item: Tree, caseSensitive: bool): (r: Tree)
    ensures r.Record?
  {
    var l := Replaced(Tailed(members, tail), IndexOf(PlainMembers(members), name, caseSensitive), Entry(name, item));
    Record(l.children, l.tail)
  }

  /** The last part of `apply_patch`. */
  function AddTree(t: Tree, path: string, item: Tree, caseSensitive: bool): TreePatched {
    match SplitLast(path)
    case NoSlash => TreePatched(t, 9)
    case Split(parentPath, encoded) =>
      var child := DecodeInPlace(encoded);
      match GetItem(Plain(t), parentPath, caseSensitive)
      case None => TreePatched(t, 9)
      case Some(a) =>
        match TreeAt(t, a)
        case List(items) =>
          if child == "-" then TreePatched(TreePut(t, a, List(items + [item])), 0)
          else
            (match DecodeIndex(child)
             case None => TreePatched(t, 11)
             case Some(i) =>
               if i > |items| then TreePatched(t, 10)
               else TreePatched(TreePut(t, a, List(Insert(items, i, item))), 0))
        case Record(members, tail) => TreePatched(TreePut(t, a, SetMember(members, tail, child, item, caseSensitive)), 0)
        case Atom(_) => TreePatched(t, 9)
  }

  /** `test`: the comparison sorts what it reaches. */
  function TestTree(t: Tree, a: Address, value: Value, caseSensitive: bool): TreePatched
    requires IsNode(Plain(t), a)
  {
    TreePatched(TreePut(t, a, Compared(TreeAt(t, a), value, caseSensitive)),
                if CompareJson(At(Plain(t), a), value, caseSensitive) then 0 else 1)
  }

  /** `apply_patch`. */
  function ApplyTree(t: Tree, patch: Value, caseSensitive: bool): TreePatched {
    match GetObjectItem(patch, "path", caseSensitive)
    case Some(String(path)) =>
      var value := GetObjectItem(patch, "value", caseSensitive);
      (match DecodeOperation(patch, caseSensitive)
       case InvalidOperation => TreePatched(t, 3)
       case Test =>
         var item := GetItem(Plain(t), path, caseSensitive);
         if item.None? || value.None? then TreePatched(t, 1)
         else TestTree(t, item.value, value.value, caseSensitive)
       case RemoveOp =>
         if path == "" then TreePatched(Atom(Invalid), 0)
         else
           (match DetachTree(t, path, caseSensitive)
            case NotThere => TreePatched(t, 13)
            case Taken(left, _) => TreePatched(left, 0))
       case Replace =>
         if path == "" then
           if value.None? then TreePatched(t, 7) else TreePatched(Copied(value.value), 0)
         else
           (match DetachTree(t, path, caseSensitive)
            case NotThere => TreePatched(t, 13)
            case Taken(left, _) =>
              if value.None? then TreePatched(left, 7) else AddTree(left, path, Copied(value.value), caseSensitive))
       case Add =>
         if value.None? then TreePatched(t, 7)
         else if path == "" then TreePatched(Copied(value.value), 0)
         else AddTree(t, path, Copied(value.value), caseSensitive)
       case Move =>
         (match GetObjectItem(patch, "from", caseSensitive)
          case None => TreePatched(t, 4)
          case Some(String(from)) =>
            (match DetachTree(t, from, caseSensitive)
             case NotThere => TreePatched(t, 5)
             case Taken(left, item) => AddTree(left, path, item, caseSensitive))
          case Some(_) => TreePatched(t, 5))
       case Copy =>
         (match GetObjectItem(patch, "from", caseSensitive)
          case None => TreePatched(t, 4)
          case Some(String(from)) =>
            (match GetItem(Plain(t), from, caseSensitive)
             case None => TreePatched(t, 5)
             case Some(a) => AddTree(t, path, Copied(At(Plain(t), a)), caseSensitive))
          case Some(_) => TreePatched(t, 5)))
    case _ => TreePatched(t, 2)
  }

  /** The loop over the patches. */
  function ApplyAllTree(t: Tree, patches: seq<Value>, caseSensitive: bool): TreePatched
    decreases |patches|
  {
    if patches == [] then TreePatched(t, 0)
    else
      var first := ApplyTree(t, patches[0], caseSensitive);
      if first.status != 0 then first else ApplyAllTree(first.tree, patches[1..], caseSensitive)
  }

  // ---- An addition on a list as it is linked ------------------------------------------------

  /** Where an addition ends up in an object: the list, and the place of the member it replaces. */
  predicate Loses(t: Tree, path: string, caseSensitive: bool) {
    match SplitLast(path)
    case NoSlash => false
    case Split(parentPath, encoded) =>
      match GetItem(Plain(t), parentPath, caseSensitive)
      case None => false
      case Some(a) =>
        match TreeAt(t, a)
        case Record(members, tail) =>
          && !Complete(Tailed(members, tail))
          && IndexOf(PlainMembers(members), DecodeInPlace(encoded), caseSensitive) != |members| - 1
        case _ => false
  }

  lemma PlainWithout(members: seq<Entry<Tree>>, name: string, caseSensitive: bool)
    ensures var i := IndexOf(PlainMembers(members), name, caseSensitive);
            PlainMembers(if i < |members| then Remove(members, i) else members)
            == WithoutMember(PlainMembers(members), name, caseSensitive)
  {}

  /** Setting a member does what it should exactly when the record is right or the last member is replaced. */
  lemma SetMemberExactly(members: seq<Entry<Tree>>, tail: Tail, name: string, item: Tree, caseSensitive: bool)
    ensures var r := SetMember(members, tail, name, item, caseSensitive);
            var i := IndexOf(PlainMembers(members), name, caseSensitive);
            var right := i == |members| - 1 || Complete(Tailed(members, tail));
            && (Plain(r) == Object(WithoutMember(PlainMembers(members), name, caseSensitive) + [Entry(name, Plain(item))]) <==> right)
            && (right ==> Complete(Tailed(r.members, r.tail)))
  {
    var i := IndexOf(PlainMembers(members), name, caseSensitive);
    var e := Entry(name, item);
    var l := Tailed(members, tail);
    var rest := if i < |members| then Remove(members, i) else members;
    var goal := PlainMembers(rest) + [Entry(name, Plain(item))];
    PlainWithout(members, name, caseSensitive);
    ReplacedExactly(l, i, e);
    var r := Replaced(l, i, e);
    assert PlainMembers(rest + [e]) == goal;
    if r.children != rest + [e] {
      ReplacedShort(l, i, e);
    }
  }

  /** Otherwise there are fewer members than there should be. */
  lemma ReplacedShort<T>(l: Tailed<T>, i: nat, e: T)
    requires i <= |l.children| && i != |l.children| - 1 && !Complete(l)
    ensures |Replaced(l, i, e).children| < |l.children| + if i < |l.children| then 0 else 1
  {
    if i < |l.children| { DroppedComplete(l, i); }
  }

  lemma ReplacedFrom<T>(l: Tailed<T>, i: nat, e: T)
    ensures forall c :: c in Replaced(l, i, e).children ==> c == e || c in l.children
  {
    var left := if i < |l.children| then Dropped(l, i) else l;
    assert forall c :: c in left.children ==> c in l.children;
  }

  lemma WholeAfterSet(members: seq<Entry<Tree>>, tail: Tail, name: string, item: Tree, caseSensitive: bool)
    requires Whole(Record(members, tail)) && Whole(item)
    ensures Whole(SetMember(members, tail, name, item, caseSensitive))
  {
    var i := IndexOf(PlainMembers(members), name, caseSensitive);
    var r := SetMember(members, tail, name, item, caseSensitive);
    WholeRecord(members, tail);
    WholeRecord(r.members, r.tail);
    SetMemberExactly(members, tail, name, item, caseSensitive);
    ReplacedFrom(Tailed(members, tail), i, Entry(name, item));
    hide Whole, Replaced;
    forall j | 0 <= j < |r.members| ensures Whole(r.members[j].item) {
      assert r.members[j] in r.members;
    }
  }

  lemma {:induction false} AtPut(v: Value, a: Address, w: Value)
    requires IsNode(v, a)
    ensures IsNode(Put(v, a, w), a) && At(Put(v, a, w), a) == w
    decreases |a|
  {
    if a != [] {
      var below := Put(Child(v, a[0]), a[1..], w);
      AtPut(Child(v, a[0]), a[1..], w);
      assert Child(PutChild(v, a[0], below), a[0]) == below;
    }
  }

  lemma AddToRecord(t: Tree, a: Address, name: string, item: Tree, caseSensitive: bool)
    requires IsNode(Plain(t), a) && TreeAt(t, a).Record?
    ensures var l := TreeAt(t, a);
            var r := TreePut(t, a, SetMember(l.members, l.tail, name, item, caseSensitive));
            var goal := Object(WithoutMember(PlainMembers(l.members), name, caseSensitive) + [Entry(name, Plain(item))]);
            && (Plain(r) == Put(Plain(t), a, goal)
                <==> Complete(Tailed(l.members, l.tail))
                     || IndexOf(PlainMembers(l.members), name, caseSensitive) == |l.members| - 1)
            && (Whole(t) && Whole(item) ==> Whole(r))
  {
    var l := TreeAt(t, a);
    var goal := Object(WithoutMember(PlainMembers(l.members), name, caseSensitive) + [Entry(name, Plain(item))]);
    var changed := SetMember(l.members, l.tail, name, item, caseSensitive);
    SetMemberExactly(l.members, l.tail, name, item, caseSensitive);
    if Whole(t) && Whole(item) { WholeAfterSet(l.members, l.tail, name, item, caseSensitive); }
    hide SetMember, Whole, Complete, WithoutMember, PlainMembers, Put, IsNode, At;
    AtPut(Plain(t), a, goal);
    AtPut(Plain(t), a, Plain(changed));
  }

  lemma PlainInsert(items: seq<Tree>, i: nat, item: Tree)
    requires i <= |items|
    ensures PlainItems(Insert(items, i, item)) == Insert(PlainItems(items), i, Plain(item))
  {
    var all := Insert(items, i, item);
    assert forall j :: 0 <= j < |all| ==> all[j] == if j < i then items[j] else if j == i then item else items[j - 1];
    hide Plain;
  }

  lemma WholeInsert(items: seq<Tree>, i: nat, item: Tree)
    requires i <= |items| && Whole(List(items)) && Whole(item)
    ensures Whole(List(Insert(items, i, item)))
  {
    var all := Insert(items, i, item);
    assert forall j :: 0 <= j < |all| ==> all[j] == if j < i then items[j] else if j == i then item else items[j - 1];
  }

  lemma AddToList(t: Tree, a: Address, i: nat, item: Tree)
    requires IsNode(Plain(t), a) && TreeAt(t, a).List? && i <= |TreeAt(t, a).items|
    ensures var items := TreeAt(t, a).items;
            var r := TreePut(t, a, List(Insert(items, i, item)));
            && Plain(r) == Put(Plain(t), a, Array(Insert(PlainItems(items), i, Plain(item))))
            && (Whole(t) && Whole(item) ==> Whole(r))
  {
    var items := TreeAt(t, a).items;
    PlainInsert(items, i, item);
    if Whole(t) && Whole(item) { WholeInsert(items, i, item); }
    hide Insert, Whole, Put, At, IsNode, TreePut, TreeAt;
  }

  lemma InsertAtEnd<T>(s: seq<T>, x: T)
    ensures Insert(s, |s|, x) == s + [x]
  {}

  /** The statuses agree always, the documents exactly when nothing is lost. */
  lemma AddTreeExactly(t: Tree, path: string, item: Tree, caseSensitive: bool)
    ensures var r, p := AddTree(t, path, item, caseSensitive), AddAt(Plain(t), path, Plain(item), caseSensitive);
            && r.status == p.status
            && (Plain(r.tree) == p.root <==> !Loses(t, path, caseSensitive))
            && (Whole(t) && Whole(item) ==> Whole(r.tree))
            && (Loses(t, path, caseSensitive) ==> r.status == 0)
  {
    var split := SplitLast(path);
    if split.Split? && GetItem(Plain(t), split.parent, caseSensitive).Some? {
      var a := GetItem(Plain(t), split.parent, caseSensitive).value;
      AddTreeThere(t, path, a, item, caseSensitive);
    }
  }

  lemma AddTreeThere(t: Tree, path: string, a: Address, item: Tree, caseSensitive: bool)
    requires var split := SplitLast(path); split.Split? && GetItem(Plain(t), split.parent, caseSensitive) == Some(a)
    ensures var r, p := AddTree(t, path, item, caseSensitive), AddAt(Plain(t), path, Plain(item), caseSensitive);
            && r.status == p.status
            && (Plain(r.tree) == p.root <==> !Loses(t, path, caseSensitive))
            && (Whole(t) && Whole(item) ==> Whole(r.tree))
            && (Loses(t, path, caseSensitive) ==> r.status == 0)
  {
    var parent := TreeAt(t, a);
    hide AddTree, AddAt, Loses, SplitLast, GetItem, Whole, At, TreeAt;
    match parent
    case Record(_, _) => AddTreeToRecord(t, path, a, item, caseSensitive);
    case List(_) => AddTreeToList(t, path, a, item, caseSensitive);
    case Atom(_) => AddTreeToAtom(t, path, a, item, caseSensitive);
  }

  lemma AddTreeToAtom(t: Tree, path: string, a: Address, item: Tree, caseSensitive: bool)
    requires var split := SplitLast(path); split.Split? && GetItem(Plain(t), split.parent, caseSensitive) == Some(a)
    requires TreeAt(t, a).Atom?
    ensures AddTree(t, path, item, caseSensitive) == TreePatched(t, 9)
    ensures AddAt(Plain(t), path, Plain(item), caseSensitive) == Patched(Plain(t), 9)
    ensures !Loses(t, path, caseSensitive)
  {
    hide SplitLast, GetItem, DecodeInPlace, DecodeIndex, SetMember;
  }

  /** What both additions do at an object. */
  lemma AtRecord(t: Tree, path: string, a: Address, item: Tree, caseSensitive: bool)
    requires var split := SplitLast(path); split.Split? && GetItem(Plain(t), split.parent, caseSensitive) == Some(a)
    requires TreeAt(t, a).Record?
    ensures var l, name := TreeAt(t, a), DecodeInPlace(SplitLast(path).child);
            && AddTree(t, path, item, caseSensitive) == TreePatched(TreePut(t, a, SetMember(l.members, l.tail, name, item, caseSensitive)), 0)
            && (Loses(t, path, caseSensitive) <==>
                  !Complete(Tailed(l.members, l.tail)) && IndexOf(PlainMembers(l.members), name, caseSensitive) != |l.members| - 1)
  {
    hide SplitLast, GetItem, DecodeInPlace, DecodeIndex, SetMember, Complete, TreePut, At, TreeAt, IndexOf;
  }

  lemma AtObject(v: Value, path: string, a: Address, item: Value, caseSensitive: bool)
    requires var split := SplitLast(path); split.Split? && GetItem(v, split.parent, caseSensitive) == Some(a)
    requires At(v, a).Object?
    ensures var name := DecodeInPlace(SplitLast(path).child);
            AddAt(v, path, item, caseSensitive) ==
              Patched(Put(v, a, Object(WithoutMember(At(v, a).members, name, caseSensitive) + [Entry(name, item)])), 0)
  {
    hide SplitLast, GetItem, DecodeInPlace, DecodeIndex, WithoutMember, Put, At;
  }

  lemma AddTreeToRecord(t: Tree, path: string, a: Address, item: Tree, caseSensitive: bool)
    requires var split := SplitLast(path); split.Split? && GetItem(Plain(t), split.parent, caseSensitive) == Some(a)
    requires TreeAt(t, a).Record?
    ensures var r, p := AddTree(t, path, item, caseSensitive), AddAt(Plain(t), path, Plain(item), caseSensitive);
            && r.status == p.status == 0
            && (Plain(r.tree) == p.root <==> !Loses(t, path, caseSensitive))
            && (Whole(t) && Whole(item) ==> Whole(r.tree))
  {
    AtRecord(t, path, a, item, caseSensitive);
    AtObject(Plain(t), path, a, Plain(item), caseSensitive);
    assert At(Plain(t), a) == Object(PlainMembers(TreeAt(t, a).members));
    hide *;
    AddToRecord(t, a, DecodeInPlace(SplitLast(path).child), item, caseSensitive);
  }

  /** Where an array takes a new item. */
  function Slot(child: string, length: nat): Option<nat> {
    if child == "-" then Some(length) else DecodeIndex(child)
  }

  /** What both additions do at an array. */
  lemma AtList(t: Tree, path: string, a: Address, item: Tree, caseSensitive: bool)
    requires var split := SplitLast(path); split.Split? && GetItem(Plain(t), split.parent, caseSensitive) == Some(a)
    requires TreeAt(t, a).List?
    ensures !Loses(t, path, caseSensitive)
    ensures var items, child := TreeAt(t, a).items, DecodeInPlace(SplitLast(path).child);
            var i := Slot(child, |items|);
            AddTree(t, path, item, caseSensitive) ==
              if i.Some? && i.value <= |items| then TreePatched(TreePut(t, a, List(Insert(items, i.value, item))), 0)
              else TreePatched(t, if i.Some? then 10 else 11)
  {
    InsertAtEnd(TreeAt(t, a).items, item);
    hide SplitLast, GetItem, DecodeInPlace, DecodeIndex, SetMember, TreePut, Insert, TreeAt;
  }

  lemma AtArray(v: Value, path: string, a: Address, item: Value, caseSensitive: bool)
    requires var split := SplitLast(path); split.Split? && GetItem(v, split.parent, caseSensitive) == Some(a)
    requires At(v, a).Array?
    ensures var items, child := At(v, a).items, DecodeInPlace(SplitLast(path).child);
            var i := Slot(child, |items|);
            AddAt(v, path, item, caseSensitive) ==
              if i.Some? && i.value <= |items| then Patched(Put(v, a, Array(Insert(items, i.value, item))), 0)
              else Patched(v, if i.Some? then 10 else 11)
  {
    InsertAtEnd(At(v, a).items, item);
    hide SplitLast, GetItem, DecodeInPlace, DecodeIndex, WithoutMember, Put, Insert, At;
  }

  lemma AddTreeToList(t: Tree, path: string, a: Address, item: Tree, caseSensitive: bool)
    requires var split := SplitLast(path); split.Split? && GetItem(Plain(t), split.parent, caseSensitive) == Some(a)
    requires TreeAt(t, a).List?
    ensures var r, p := AddTree(t, path, item, caseSensitive), AddAt(Plain(t), path, Plain(item), caseSensitive);
            && r.status == p.status && Plain(r.tree) == p.root
            && (Whole(t) && Whole(item) ==> Whole(r.tree))
    ensures !Loses(t, path, caseSensitive)
  {
    var items := TreeAt(t, a).items;
    AtList(t, path, a, item, caseSensitive);
    AtArray(Plain(t), path, a, Plain(item), caseSensitive);
    assert At(Plain(t), a) == Array(PlainItems(items));
    hide *;
    var i := Slot(DecodeInPlace(SplitLast(path).child), |items|);
    if i.Some? && i.value <= |items| { AddToList(t, a, i.value, item); }
  }

  lemma WholeLosesNothing(t: Tree, path: string, caseSensitive: bool)
    requires Whole(t)
    ensures !Loses(t, path, caseSensitive)
  {
    hide SplitLast, GetItem, DecodeInPlace, At, IndexOf, PlainMembers;
  }

  // ---- One operation ------------------------------------------------------------------------

  /** The operation adds to an object whose record is wrong, and not in the place of its last member. */
  predicate LosesMember(t: Tree, patch: Value, caseSensitive: bool) {
    match GetObjectItem(patch, "path", caseSensitive)
    case Some(String(path)) =>
      var value, source := GetObjectItem(patch, "value", caseSensitive), GetObjectItem(patch, "from", caseSensitive);
      (match DecodeOperation(patch, caseSensitive)
       case Add => value.Some? && path != "" && Loses(t, path, caseSensitive)
       case Replace =>
         path != "" && value.Some? &&
         (match DetachTree(t, path, caseSensitive)
          case NotThere => false
          case Taken(left, _) => Loses(left, path, caseSensitive))
       case Move =>
         (match source
          case Some(String(from)) =>
            (match DetachTree(t, from, caseSensitive)
             case NotThere => false
             case Taken(left, _) => Loses(left, path, caseSensitive))
          case _ => false)
       case Copy =>
         (match source
          case Some(String(from)) => GetItem(Plain(t), from, caseSensitive).Some? && Loses(t, path, caseSensitive)
          case _ => false)
       case _ => false)
    case _ => false
  }

  /** A `test` that reaches an object whose first or last member has another place in the sort. */
  predicate TestMovesEnds(root: Value, patch: Value, caseSensitive: bool) {
    match GetObjectItem(patch, "path", caseSensitive)
    case Some(String(path)) =>
      var item, value := GetItem(root, path, caseSensitive), GetObjectItem(patch, "value", caseSensitive);
      && DecodeOperation(patch, caseSensitive) == Test && item.Some? && value.Some?
      && MovesEnds(At(root, item.value), value.value, caseSensitive)
    case _ => false
  }

  /** What an operation does to the list, against what it does to the document. */
  ghost predicate Agrees(t: Tree, patch: Value, caseSensitive: bool) {
    var r, p := ApplyTree(t, patch, caseSensitive), ApplyPatch(Plain(t), patch, caseSensitive);
    && r.status == p.status
    && (Plain(r.tree) == p.root <==> !LosesMember(t, patch, caseSensitive))
    && (LosesMember(t, patch, caseSensitive) ==> r.status == 0)
    && (Whole(t) ==> !LosesMember(t, patch, caseSensitive))
    && (Whole(t) ==> (Whole(r.tree) <==> !TestMovesEnds(Plain(t), patch, caseSensitive)))
  }

  /**
   Every operation returns the status it should. Its outcome is the one it should have exactly when it
   does not add to an object with a wrong record, and only a `test` makes a record wrong.
   */
  lemma OperationExactly(t: Tree, patch: Value, caseSensitive: bool)
    ensures Agrees(t, patch, caseSensitive)
  {
    var pathItem := GetObjectItem(patch, "path", caseSensitive);
    if pathItem.Some? && pathItem.value.String? {
      var path := pathItem.value.text;
      match DecodeOperation(patch, caseSensitive)
      case Test => TestAgrees(t, patch, path, caseSensitive);
      case Replace => ReplaceAgrees(t, patch, path, caseSensitive);
      case Move => MoveAgrees(t, patch, path, caseSensitive);
      case Copy => CopyAgrees(t, patch, path, caseSensitive);
      case Add => AddAgrees(t, patch, path, caseSensitive);
      case _ => OthersAgree(t, patch, path, caseSensitive);
    }
  }

  lemma TestTreeAgrees(t: Tree, a: Address, value: Value, caseSensitive: bool)
    requires IsNode(Plain(t), a)
    ensures var r, p := TestTree(t, a, value, caseSensitive), TestAt(Plain(t), a, value, caseSensitive);
            && r.status == p.status && Plain(r.tree) == p.root
            && (Whole(t) ==> (Whole(r.tree) <==> !MovesEnds(At(Plain(t), a), value, caseSensitive)))
  {
    var node := TreeAt(t, a);
    PlainCompared(node, value, caseSensitive);
    if Whole(t) { WholeCompared(node, value, caseSensitive); }
    hide Whole, TreePut, Put, TreeAt, At, Compared, Visited, MovesEnds, CompareJson;
  }

  lemma TestUnfolds(t: Tree, patch: Value, path: string, caseSensitive: bool)
    requires GetObjectItem(patch, "path", caseSensitive) == Some(String(path))
    requires DecodeOperation(patch, caseSensitive) == Test
    ensures var item, value := GetItem(Plain(t), path, caseSensitive), GetObjectItem(patch, "value", caseSensitive);
            && ApplyTree(t, patch, caseSensitive) ==
                 (if item.None? || value.None? then TreePatched(t, 1) else TestTree(t, item.value, value.value, caseSensitive))
            && !LosesMember(t, patch, caseSensitive)
  {
    hide GetItem, GetObjectItem, DecodeOperation, TestTree, Plain;
  }

  lemma TestUnfoldsPlain(v: Value, patch: Value, path: string, caseSensitive: bool)
    requires GetObjectItem(patch, "path", caseSensitive) == Some(String(path))
    requires DecodeOperation(patch, caseSensitive) == Test
    ensures var item, value := GetItem(v, path, caseSensitive), GetObjectItem(patch, "value", caseSensitive);
            && ApplyPatch(v, patch, caseSensitive) ==
                 (if item.None? || value.None? then Patched(v, 1) else TestAt(v, item.value, value.value, caseSensitive))
            && (TestMovesEnds(v, patch, caseSensitive) <==>
                  item.Some? && value.Some? && MovesEnds(At(v, item.value), value.value, caseSensitive))
  {
    hide GetItem, GetObjectItem, DecodeOperation, TestAt, MovesEnds, At;
  }

  lemma TestAgrees(t: Tree, patch: Value, path: string, caseSensitive: bool)
    requires GetObjectItem(patch, "path", caseSensitive) == Some(String(path))
    requires DecodeOperation(patch, caseSensitive) == Test
    ensures Agrees(t, patch, caseSensitive)
  {
    var item, value := GetItem(Plain(t), path, caseSensitive), GetObjectItem(patch, "value", caseSensitive);
    TestUnfolds(t, patch, path, caseSensitive);
    TestUnfoldsPlain(Plain(t), patch, path, caseSensitive);
    hide GetItem, GetObjectItem, DecodeOperation, Whole, At, MovesEnds, TestTree, TestAt, ApplyTree, ApplyPatch, LosesMember,
      TestMovesEnds;
    if item.Some? && value.Some? { TestTreeAgrees(t, item.value, value.value, caseSensitive); }
  }

  /** An operation that ends in an addition. */
  lemma AdditionAgrees(t: Tree, patch: Value, left: Tree, path: string, item: Tree, caseSensitive: bool)
    requires ApplyTree(t, patch, caseSensitive) == AddTree(left, path, item, caseSensitive)
    requires ApplyPatch(Plain(t), patch, caseSensitive) == AddAt(Plain(left), path, Plain(item), caseSensitive)
    requires LosesMember(t, patch, caseSensitive) <==> Loses(left, path, caseSensitive)
    requires !TestMovesEnds(Plain(t), patch, caseSensitive)
    requires Whole(t) ==> Whole(left) && Whole(item)
    ensures Agrees(t, patch, caseSensitive)
  {
    hide ApplyTree, ApplyPatch, AddTree, AddAt, LosesMember, Loses, TestMovesEnds, Whole;
    AddTreeExactly(left, path, item, caseSensitive);
    if Whole(t) { WholeLosesNothing(left, path, caseSensitive); }
  }

  /** An operation that stops early, with no more than something taken out. */
  lemma StopAgrees(t: Tree, patch: Value, left: Tree, status: int, caseSensitive: bool)
    requires ApplyTree(t, patch, caseSensitive) == TreePatched(left, status)
    requires ApplyPatch(Plain(t), patch, caseSensitive) == Patched(Plain(left), status)
    requires !LosesMember(t, patch, caseSensitive) && !TestMovesEnds(Plain(t), patch, caseSensitive)
    requires Whole(t) ==> Whole(left)
    ensures Agrees(t, patch, caseSensitive)
  {
    hide ApplyTree, ApplyPatch, LosesMember, TestMovesEnds, Whole;
  }

  lemma NoTestMoves(t: Tree, patch: Value, caseSensitive: bool)
    requires DecodeOperation(patch, caseSensitive) != Test
    ensures !TestMovesEnds(Plain(t), patch, caseSensitive)
  {
    hide GetItem, DecodeOperation, GetObjectItem, MovesEnds, At;
  }

  lemma ReplaceUnfolds(t: Tree, patch: Value, path: string, caseSensitive: bool)
    requires GetObjectItem(patch, "path", caseSensitive) == Some(String(path))
    requires DecodeOperation(patch, caseSensitive) == Operation.Replace
    ensures var value, d := GetObjectItem(patch, "value", caseSensitive), DetachTree(t, path, caseSensitive);
            && ApplyTree(t, patch, caseSensitive) ==
                 (if path == "" then if value.None? then TreePatched(t, 7) else TreePatched(Copied(value.value), 0)
                  else if d.NotThere? then TreePatched(t, 13)
                  else if value.None? then TreePatched(d.tree, 7)
                  else AddTree(d.tree, path, Copied(value.value), caseSensitive))
            && (LosesMember(t, patch, caseSensitive) <==>
                  path != "" && value.Some? && d.Taken? && Loses(d.tree, path, caseSensitive))
  {
    hide GetObjectItem, DecodeOperation, DetachTree, AddTree, Loses, Copied;
  }

  lemma ReplaceUnfoldsPlain(v: Value, patch: Value, path: string, caseSensitive: bool)
    requires GetObjectItem(patch, "path", caseSensitive) == Some(String(path))
    requires DecodeOperation(patch, caseSensitive) == Operation.Replace
    ensures var value, d := GetObjectItem(patch, "value", caseSensitive), DetachPath(v, path, caseSensitive);
            ApplyPatch(v, patch, caseSensitive) ==
              (if path == "" then if value.None? then Patched(v, 7) else Patched(value.value, 0)
               else if d.NotFound? then Patched(v, 13)
               else if value.None? then Patched(d.root, 7)
               else AddAt(d.root, path, value.value, caseSensitive))
  {
    hide GetObjectItem, DecodeOperation, DetachPath, AddAt;
  }

  lemma ReplaceAgrees(t: Tree, patch: Value, path: string, caseSensitive: bool)
    requires GetObjectItem(patch, "path", caseSensitive) == Some(String(path))
    requires DecodeOperation(patch, caseSensitive) == Operation.Replace
    ensures Agrees(t, patch, caseSensitive)
  {
    var value, d := GetObjectItem(patch, "value", caseSensitive), DetachTree(t, path, caseSensitive);
    NoTestMoves(t, patch, caseSensitive);
    ReplaceUnfolds(t, patch, path, caseSensitive);
    ReplaceUnfoldsPlain(Plain(t), patch, path, caseSensitive);
    hide GetObjectItem, DecodeOperation, DetachTree, DetachPath, AddTree, AddAt, Whole, Loses, TestMovesEnds, Agrees, ApplyTree,
      ApplyPatch, LosesMember;
    if path == "" {
      StopAgrees(t, patch, if value.None? then t else Copied(value.value), if value.None? then 7 else 0, caseSensitive);
    } else if d.NotThere? {
      StopAgrees(t, patch, t, 13, caseSensitive);
    } else if value.None? {
      StopAgrees(t, patch, d.tree, 7, caseSensitive);
    } else {
      AdditionAgrees(t, patch, d.tree, path, Copied(value.value), caseSensitive);
    }
  }

  lemma MoveAgrees(t: Tree, patch: Value, path: string, caseSensitive: bool)
    requires GetObjectItem(patch, "path", caseSensitive) == Some(String(path))
    requires DecodeOperation(patch, caseSensitive) == Move
    ensures Agrees(t, patch, caseSensitive)
  {
    var source := GetObjectItem(patch, "from", caseSensitive);
    NoTestMoves(t, patch, caseSensitive);
    hide GetObjectItem, DecodeOperation, DetachTree, DetachPath, AddTree, AddAt, Whole, Loses, TestMovesEnds, Agrees;
    if source.None? {
      StopAgrees(t, patch, t, 4, caseSensitive);
    } else if !source.value.String? || DetachTree(t, source.value.text, caseSensitive).NotThere? {
      StopAgrees(t, patch, t, 5, caseSensitive);
    } else {
      var d := DetachTree(t, source.value.text, caseSensitive);
      AdditionAgrees(t, patch, d.tree, path, d.item, caseSensitive);
    }
  }

  lemma CopyAgrees(t: Tree, patch: Value, path: string, caseSensitive: bool)
    requires GetObjectItem(patch, "path", caseSensitive) == Some(String(path))
    requires DecodeOperation(patch, caseSensitive) == Operation.Copy
    ensures Agrees(t, patch, caseSensitive)
  {
    var source := GetObjectItem(patch, "from", caseSensitive);
    NoTestMoves(t, patch, caseSensitive);
    hide GetItem, GetObjectItem, DecodeOperation, AddTree, AddAt, Whole, Loses, At, TestMovesEnds, Agrees;
    if source.None? {
      StopAgrees(t, patch, t, 4, caseSensitive);
    } else if !source.value.String? || GetItem(Plain(t), source.value.text, caseSensitive).None? {
      StopAgrees(t, patch, t, 5, caseSensitive);
    } else {
      var a := GetItem(Plain(t), source.value.text, caseSensitive).value;
      AdditionAgrees(t, patch, t, path, Copied(At(Plain(t), a)), caseSensitive);
    }
  }

  lemma AddAgrees(t: Tree, patch: Value, path: string, caseSensitive: bool)
    requires GetObjectItem(patch, "path", caseSensitive) == Some(String(path))
    requires DecodeOperation(patch, caseSensitive) == Add
    ensures Agrees(t, patch, caseSensitive)
  {
    var value := GetObjectItem(patch, "value", caseSensitive);
    NoTestMoves(t, patch, caseSensitive);
    hide GetObjectItem, DecodeOperation, AddTree, AddAt, Whole, Loses, TestMovesEnds, Agrees;
    if value.None? {
      StopAgrees(t, patch, t, 7, caseSensitive);
    } else if path == "" {
      StopAgrees(t, patch, Copied(value.value), 0, caseSensitive);
    } else {
      AdditionAgrees(t, patch, t, path, Copied(value.value), caseSensitive);
    }
  }

  lemma RemoveUnfolds(t: Tree, patch: Value, path: string, caseSensitive: bool)
    requires GetObjectItem(patch, "path", caseSensitive) == Some(String(path))
    requires DecodeOperation(patch, caseSensitive) in {InvalidOperation, RemoveOp}
    ensures var d := DetachTree(t, path, caseSensitive);
            && ApplyTree(t, patch, caseSensitive) ==
                 (if DecodeOperation(patch, caseSensitive) == InvalidOperation then TreePatched(t, 3)
                  else if path == "" then TreePatched(Atom(Invalid), 0)
                  else if d.NotThere? then TreePatched(t, 13) else TreePatched(d.tree, 0))
            && !LosesMember(t, patch, caseSensitive)
  {
    hide GetObjectItem, DecodeOperation, DetachTree, AddTree, TestTree, Copied;
  }

  lemma RemoveUnfoldsPlain(v: Value, patch: Value, path: string, caseSensitive: bool)
    requires GetObjectItem(patch, "path", caseSensitive) == Some(String(path))
    requires DecodeOperation(patch, caseSensitive) in {InvalidOperation, RemoveOp}
    ensures var d := DetachPath(v, path, caseSensitive);
            ApplyPatch(v, patch, caseSensitive) ==
              (if DecodeOperation(patch, caseSensitive) == InvalidOperation then Patched(v, 3)
               else if path == "" then Patched(Invalid, 0)
               else if d.NotFound? then Patched(v, 13) else Patched(d.root, 0))
  {
    hide GetObjectItem, DecodeOperation, DetachPath, AddAt, TestAt;
  }

  lemma OthersAgree(t: Tree, patch: Value, path: string, caseSensitive: bool)
    requires GetObjectItem(patch, "path", caseSensitive) == Some(String(path))
    requires DecodeOperation(patch, caseSensitive) in {InvalidOperation, RemoveOp}
    ensures Agrees(t, patch, caseSensitive)
  {
    var d := DetachTree(t, path, caseSensitive);
    WholeAtom();
    NoTestMoves(t, patch, caseSensitive);
    RemoveUnfolds(t, patch, path, caseSensitive);
    RemoveUnfoldsPlain(Plain(t), patch, path, caseSensitive);
    hide GetObjectItem, DecodeOperation, DetachTree, DetachPath, Whole, TestMovesEnds, Agrees, Plain, ApplyTree, ApplyPatch, LosesMember;
    if DecodeOperation(patch, caseSensitive) == InvalidOperation {
      StopAgrees(t, patch, t, 3, caseSensitive);
    } else if path == "" {
      StopAgrees(t, patch, Atom(Invalid), 0, caseSensitive);
    } else {
      StopAgrees(t, patch, if d.NotThere? then t else d.tree, if d.NotThere? then 13 else 0, caseSensitive);
    }
  }

  lemma WholeAtom()
    ensures Whole(Atom(Invalid)) && Plain(Atom(Invalid)) == Invalid
  {}
}

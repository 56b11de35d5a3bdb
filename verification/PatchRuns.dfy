/**
 Patching as it runs: the list of patches that grows while two trees are walked, and the document
 that changes while patches are applied. Each method is tied to the function that `Diff` and
 `TreePatch` reason about. Lookups, decoding and sorting are called by their functions here; `PointerLoops` and
 `ListSort` show that the code computes them.
 */
module PatchRuns {
  import opened CString
  import opened Compare
  import opened CompareRuns
  import opened Diff
  import opened Digits
  import opened Json
  import opened KeySort
  import opened Patch
  import opened Pointer
  import opened Tails
  import opened TreePatch
  import opened Trees

  /** The array node that `create_patches` appends to. */
  class PatchList {
    var items: seq<Value>

    constructor ()
      ensures items == []
    {
      items := [];
    }

    /** `compose_patch`. */
    method Compose(operation: string, path: string, suffix: Option<string>, value: Option<Value>)
      modifies this
      ensures items == old(items) + [MakePatch(operation, if suffix.Some? then path + "/" + Encode(suffix.value) else path, value)]
    {
      var fullPath := path;
      if suffix.Some? {
        fullPath := path + "/" + Encode(suffix.value);
      }
      var members := [Entry("op", String(operation)), Entry("path", String(fullPath))];
      if value.Some? {
        members := members + [Entry("value", value.value)];
      }
      assert Object(members) == MakePatch(operation, fullPath, value);
      items := items + [Object(members)];
    }

    /** `create_patches`. */
    method Create(path: string, from: Value, to: Value, caseSensitive: bool)
      modifies this
      ensures items == old(items) + CreatePatches(path, from, to, caseSensitive)
      decreases from, 1
    {
      if Kind(from) != Kind(to) {
        Compose("replace", path, None, Some(to));
        return;
      }
      match from {
        case Number(num) =>
          if ValueInt(num) != ValueInt(to.num) || !CompareDouble(num, to.num) {
            Compose("replace", path, None, Some(to));
          }
        case String(text) =>
          if text != to.text {
            Compose("replace", path, None, Some(to));
          }
        case Array(_) => CreateForItems(path, from, to, caseSensitive);
        case Object(_) => CreateForMembers(path, from, to, caseSensitive);
        case _ =>
      }
    }

    /** The array case: common indices, then a tail to remove, then a tail to append. */
    method CreateForItems(path: string, from: Value, to: Value, caseSensitive: bool)
      requires from.Array? && to.Array?
      modifies this
      ensures items == old(items) + CreateItemPatches(path, from, to, 0, caseSensitive)
      decreases from, 0
    {
      var index := 0;
      while index < |from.items| && index < |to.items|
        invariant index <= |from.items| && index <= |to.items|
        invariant items + CreateItemPatches(path, from, to, index, caseSensitive)
               == old(items) + CreateItemPatches(path, from, to, 0, caseSensitive)
        decreases |from.items| - index
      {
        ghost var before := items;
        var newPath := path + "/" + Decimal(index);
        Create(newPath, from.items[index], to.items[index], caseSensitive);
        Associative(before, CreatePatches(newPath, from.items[index], to.items[index], caseSensitive),
                CreateItemPatches(path, from, to, index + 1, caseSensitive));
        index := index + 1;
      }
      RemoveLeftovers(path, index, |from.items| - index);
      Associative(old(items), CreateItemPatches(path, from, to, 0, caseSensitive), []);
      AppendNew(path, to.items[index..]);
    }

    /** Leftover elements, all removed at one index. */
    method RemoveLeftovers(path: string, index: nat, count: nat)
      modifies this
      ensures items == old(items) + RemoveTail(path, index, count)
    {
      var left: nat := count;
      while left > 0
        invariant left <= count
        invariant items + RemoveTail(path, index, left) == old(items) + RemoveTail(path, index, count)
      {
        ghost var before := items;
        Compose("remove", path, Some(Decimal(index)), None);
        left := left - 1;
        Associative(before, items[|before|..], RemoveTail(path, index, left));
      }
    }

    /** New elements, all added at the end. */
    method AppendNew(path: string, news: seq<Value>)
      modifies this
      ensures items == old(items) + AppendTail(path, news)
    {
      var i := 0;
      assert news[0..] == news;
      while i < |news|
        invariant i <= |news|
        invariant items + AppendTail(path, news[i..]) == old(items) + AppendTail(path, news)
      {
        ghost var before := items;
        assert news[i..][1..] == news[i + 1..];
        Compose("add", path, Some("-"), Some(news[i]));
        i := i + 1;
        Associative(before, items[|before|..], AppendTail(path, news[i..]));
      }
    }

    /** The object case: sort both, then walk both. */
    method CreateForMembers(path: string, from: Value, to: Value, caseSensitive: bool)
      requires from.Object? && to.Object?
      modifies this
      ensures (forall e :: e in Sort(from.members, caseSensitive) ==> e in from.members)
           && items == old(items) + CreateMemberPatches(path, from, Sort(from.members, caseSensitive),
                                                         Sort(to.members, caseSensitive), caseSensitive)
      decreases from, 0
    {
      SortMembers(from.members, caseSensitive);
      ghost var goal := CreateMemberPatches(path, from, Sort(from.members, caseSensitive), Sort(to.members, caseSensitive), caseSensitive);
      var f, t := Sort(from.members, caseSensitive), Sort(to.members, caseSensitive);
      while f != [] || t != []
        invariant forall e :: e in f ==> e in from.members
        invariant items + CreateMemberPatches(path, from, f, t, caseSensitive) == old(items) + goal
        decreases |f| + |t|
      {
        ghost var before, rest := items, CreateMemberPatches(path, from, f, t, caseSensitive);
        assert f != [] ==> f[0] in from.members;
        var diff;
        if f == [] {
          diff := 1;
        } else if t == [] {
          diff := -1;
        } else {
          diff := CompareStrings(f[0].key, t[0].key, caseSensitive);
        }
        ghost var piece;
        if diff == 0 {
          piece := CreatePatches(path + "/" + Encode(f[0].key), f[0].item, t[0].item, caseSensitive);
          Create(path + "/" + Encode(f[0].key), f[0].item, t[0].item, caseSensitive);
          f, t := f[1..], t[1..];
        } else if diff < 0 {
          piece := [MakePatch("remove", path + "/" + Encode(f[0].key), None)];
          Compose("remove", path, Some(f[0].key), None);
          f := f[1..];
        } else {
          piece := [MakePatch("add", path + "/" + Encode(t[0].key), Some(t[0].item))];
          Compose("add", path, Some(t[0].key), Some(t[0].item));
          t := t[1..];
        }
        assert rest == piece + CreateMemberPatches(path, from, f, t, caseSensitive);
        Associative(before, piece, CreateMemberPatches(path, from, f, t, caseSensitive));
      }
    }
  }

  /** `cJSONUtils_GeneratePatches` and its case sensitive form. */
  method GenerateInStep(from: Value, to: Value, caseSensitive: bool) returns (patches: Value)
    ensures patches == GeneratePatches(from, to, caseSensitive)
  {
    var list := new PatchList();
    list.Create("", from, to, caseSensitive);
    patches := Array(list.items);
  }

  /** A document under patching: the tree below the node the caller holds, with the tails its objects record. */
  class Document {
    var tree: Tree

    constructor (t: Tree)
      ensures tree == t
    {
      tree := t;
    }

    /** `detach_path`. */
    method Detach(path: string, caseSensitive: bool) returns (item: TreeDetached)
      modifies this
      ensures item == DetachTree(old(tree), path, caseSensitive)
      ensures tree == if item.Taken? then item.tree else old(tree)
    {
      hide SplitLast, DecodeInPlace, DecodeIndex, GetItem, TreeAt, TreePut, Put, At, Whole, DetachPath;
      var split := SplitLast(path);
      if split.NoSlash? { return NotThere; }
      var a := GetItem(Plain(tree), split.parent, caseSensitive);
      if a.None? { return NotThere; }
      var parent := TreeAt(tree, a.value);
      var child := DecodeInPlace(split.child);
      var i: nat;
      match parent {
        case List(items) =>
          var index := DecodeIndex(child);
          if index.None? || index.value >= |items| { return NotThere; }
          i := index.value;
        case Record(members, _) =>
          i := IndexOf(PlainMembers(members), child, false);
          if i >= |members| { return NotThere; }
        case Atom(_) => return NotThere;
      }
      item := Taken(TreePut(tree, a.value, WithoutChildTree(parent, i)), ChildTree(parent, i));
      tree := item.tree;
    }

    /** The end of `apply_patch`: put the value where the path says. */
    method AddValue(path: string, value: Tree, caseSensitive: bool) returns (status: int)
      modifies this
      ensures TreePatched(tree, status) == AddTree(old(tree), path, value, caseSensitive)
    {
      var split := SplitLast(path);
      if split.NoSlash? { return 9; }
      var a := GetItem(Plain(tree), split.parent, caseSensitive);
      if a.None? { return 9; }
      var child := DecodeInPlace(split.child);
      match TreeAt(tree, a.value) {
        case List(items) =>
          if child == "-" {
            tree := TreePut(tree, a.value, List(items + [value]));
          } else {
            var index := DecodeIndex(child);
            if index.None? { return 11; }
            if index.value > |items| { return 10; }
            tree := TreePut(tree, a.value, List(Insert(items, index.value, value)));
          }
        case Record(members, tail) =>
          var l := Tailed(members, tail);
          var i := IndexOf(PlainMembers(members), child, caseSensitive);
          if i < |members| { l := Dropped(l, i); }
          l := Appended(l, Entry(child, value));
          tree := TreePut(tree, a.value, Record(l.children, l.tail));
        case Atom(_) => return 9;
      }
      status := 0;
    }

    /** `test`: the comparison runs on the node itself. */
    method TestValue(a: Address, value: Value, caseSensitive: bool) returns (status: int)
      requires IsNode(Plain(tree), a)
      modifies this
      ensures TreePatched(tree, status) == TestTree(old(tree), a, value, caseSensitive)
    {
      hide Compared, CompareJson, TreePut, TreeAt, At;
      var same, left := CompareInPlace(TreeAt(tree, a), value, caseSensitive);
      tree := TreePut(tree, a, left);
      return if same then 0 else 1;
    }

    /** `apply_patch`. */
    method Apply(patch: Value, caseSensitive: bool) returns (status: int)
      modifies this
      ensures TreePatched(tree, status) == ApplyTree(old(tree), patch, caseSensitive)
    {
      hide DetachTree, AddTree, GetItem, GetObjectItem, DecodeOperation, TestTree, TreePut, At, DetachPath, AddAt, Whole, Child,
        Plain, Copied;
      var pathItem := GetObjectItem(patch, "path", caseSensitive);
      if pathItem.None? || !pathItem.value.String? { return 2; }
      var path := pathItem.value.text;
      var opcode := DecodeOperation(patch, caseSensitive);
      if opcode == InvalidOperation {
        return 3;
      } else if opcode == Test {
        var found, expected := GetItem(Plain(tree), path, caseSensitive), GetObjectItem(patch, "value", caseSensitive);
        if found.None? || expected.None? { return 1; }
        status := TestValue(found.value, expected.value, caseSensitive);
        return;
      }
      if path == "" {
        if opcode == RemoveOp {
          tree := Atom(Invalid);
          return 0;
        }
        if opcode == Operation.Replace || opcode == Add {
          var whole := GetObjectItem(patch, "value", caseSensitive);
          if whole.None? { return 7; }
          tree := Copied(whole.value);
          return 0;
        }
      }
      if opcode == RemoveOp || opcode == Operation.Replace {
        var old_item := Detach(path, caseSensitive);
        if old_item.NotThere? { return 13; }
        if opcode == RemoveOp { return 0; }
      }
      var value: Tree;
      if opcode == Move || opcode == Copy {
        var from := GetObjectItem(patch, "from", caseSensitive);
        if from.None? { return 4; }
        if !from.value.String? { return 5; }
        if opcode == Move {
          var taken := Detach(from.value.text, caseSensitive);
          if taken.NotThere? { return 5; }
          value := taken.item;
        } else {
          var a := GetItem(Plain(tree), from.value.text, caseSensitive);
          if a.None? { return 5; }
          value := Copied(At(Plain(tree), a.value));
        }
      } else {
        var given := GetObjectItem(patch, "value", caseSensitive);
        if given.None? { return 7; }
        value := Copied(given.value);
      }
      status := AddValue(path, value, caseSensitive);
    }

    /** `cJSONUtils_ApplyPatches` and its case sensitive form. */
    method ApplyEach(patches: Value, caseSensitive: bool) returns (status: int)
      modifies this
      ensures patches.Array? ==> TreePatched(tree, status) == ApplyAllTree(old(tree), patches.items, caseSensitive)
      ensures !patches.Array? ==> status == 1 && tree == old(tree)
    {
      if !patches.Array? { return 1; }
      hide ApplyTree;
      var i := 0;
      assert patches.items[0..] == patches.items;
      while i < |patches.items|
        invariant i <= |patches.items|
        invariant ApplyAllTree(tree, patches.items[i..], caseSensitive) == ApplyAllTree(old(tree), patches.items, caseSensitive)
      {
        assert patches.items[i..][1..] == patches.items[i + 1..];
        status := Apply(patches.items[i], caseSensitive);
        if status != 0 { return; }
        i := i + 1;
      }
      status := 0;
    }
  }
}

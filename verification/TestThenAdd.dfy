/**
 Whole runs of patches on child lists as they are linked, and the one thing that can go wrong in them:
 an addition to an object that a `test` has sorted.
 */
module TestThenAdd {
  import opened Compare
  import opened CString
  import opened Diff
  import opened Digits
  import opened Json
  import opened KeySort
  import opened Patch
  import opened PatchOps
  import opened PatchEffects
  import opened Pointer
  import opened Tails
  import opened TreePatch
  import opened Trees
  import opened Visits

  // ---- Runs ---------------------------------------------------------------------------------

  /** Some operation of the run loses members. */
  predicate RunLoses(t: Tree, patches: seq<Value>, caseSensitive: bool)
    decreases |patches|
  {
    patches != [] &&
    var first := ApplyTree(t, patches[0], caseSensitive);
    || LosesMember(t, patches[0], caseSensitive)
    || (first.status == 0 && RunLoses(first.tree, patches[1..], caseSensitive))
  }

  /** A run that loses nothing has the outcome that `Patch` speaks of. */
  lemma {:induction false} RunFollows(t: Tree, patches: seq<Value>, caseSensitive: bool)
    requires !RunLoses(t, patches, caseSensitive)
    ensures var r, p := ApplyAllTree(t, patches, caseSensitive), ApplyAll(Plain(t), patches, caseSensitive);
            r.status == p.status && Plain(r.tree) == p.root
    decreases |patches|
  {
    hide ApplyTree, ApplyPatch, LosesMember;
    if patches != [] {
      OperationExactly(t, patches[0], caseSensitive);
      var first := ApplyTree(t, patches[0], caseSensitive);
      if first.status == 0 { RunFollows(first.tree, patches[1..], caseSensitive); }
    }
  }

  /** A `test` of the run moves the first or last member of an object it reaches. */
  predicate RunMovesEnds(root: Value, patches: seq<Value>, caseSensitive: bool)
    decreases |patches|
  {
    patches != [] &&
    var first := ApplyPatch(root, patches[0], caseSensitive);
    || TestMovesEnds(root, patches[0], caseSensitive)
    || (first.status == 0 && RunMovesEnds(first.root, patches[1..], caseSensitive))
  }

  /** On a document whose records are right, nothing is lost unless a `test` moves the ends of an object. */
  lemma {:induction false} WholeRun(t: Tree, patches: seq<Value>, caseSensitive: bool)
    requires Whole(t) && !RunMovesEnds(Plain(t), patches, caseSensitive)
    ensures !RunLoses(t, patches, caseSensitive)
    ensures var r, p := ApplyAllTree(t, patches, caseSensitive), ApplyAll(Plain(t), patches, caseSensitive);
            r.status == p.status && Plain(r.tree) == p.root && Whole(r.tree)
    decreases |patches|
  {
    hide ApplyTree, ApplyPatch, LosesMember, TestMovesEnds, Whole;
    if patches != [] {
      OperationExactly(t, patches[0], caseSensitive);
      var first := ApplyTree(t, patches[0], caseSensitive);
      if first.status == 0 { WholeRun(first.tree, patches[1..], caseSensitive); }
    }
  }

  // ---- Generated patches --------------------------------------------------------------------

  predicate NoTest(patches: seq<Value>, caseSensitive: bool) {
    forall i :: 0 <= i < |patches| ==> DecodeOperation(patches[i], caseSensitive) != Test
  }

  lemma {:induction false} NoTestMovesNothing(root: Value, patches: seq<Value>, caseSensitive: bool)
    requires NoTest(patches, caseSensitive)
    ensures !RunMovesEnds(root, patches, caseSensitive)
    decreases |patches|
  {
    hide ApplyPatch, DecodeOperation, MovesEnds;
    if patches != [] {
      NoTestMovesNothing(ApplyPatch(root, patches[0], caseSensitive).root, patches[1..], caseSensitive);
    }
  }

  lemma MadeNoTest(operation: string, path: string, value: Option<Value>, caseSensitive: bool)
    requires operation in {"add", "remove", "replace"}
    ensures NoTest([MakePatch(operation, path, value)], caseSensitive)
  {
    ReadsOperation(operation, path, value, caseSensitive);
    OperationNames();
    hide MakePatch, GetObjectItem;
  }

  lemma {:induction false} TailsNoTest(path: string, index: nat, count: nat, items: seq<Value>, caseSensitive: bool)
    ensures NoTest(RemoveTail(path, index, count), caseSensitive) && NoTest(AppendTail(path, items), caseSensitive)
    decreases count + |items|
  {
    hide MakePatch, DecodeOperation;
    if count > 0 {
      MadeNoTest("remove", path + "/" + Encode(Decimal(index)), None, caseSensitive);
      TailsNoTest(path, index, count - 1, items, caseSensitive);
    } else if items != [] {
      MadeNoTest("add", path + "/" + Encode("-"), Some(items[0]), caseSensitive);
      TailsNoTest(path, index, count, items[1..], caseSensitive);
    }
  }

  /** `create_patches` generates no `test`. */
  lemma {:induction false} GeneratedNoTest(path: string, from: Value, to: Value, caseSensitive: bool)
    ensures NoTest(CreatePatches(path, from, to, caseSensitive), caseSensitive)
    decreases from, 2
  {
    hide MakePatch, DecodeOperation;
    MadeNoTest("replace", path, Some(to), caseSensitive);
    if Kind(from) == Kind(to) {
      match from
      case Array(_) => ItemsNoTest(path, from, to, 0, caseSensitive);
      case Object(members) =>
        SortedFrom(members, Sort(members, caseSensitive), caseSensitive);
        MembersNoTest(path, from, Sort(members, caseSensitive), Sort(to.members, caseSensitive), caseSensitive);
      case _ =>
    }
  }

  lemma {:induction false} ItemsNoTest(path: string, from: Value, to: Value, index: nat, caseSensitive: bool)
    requires from.Array? && to.Array? && index <= |from.items| && index <= |to.items|
    ensures NoTest(CreateItemPatches(path, from, to, index, caseSensitive), caseSensitive)
    decreases from, 1, |from.items| - index
  {
    hide MakePatch, DecodeOperation;
    if index < |from.items| && index < |to.items| {
      GeneratedNoTest(path + "/" + Decimal(index), from.items[index], to.items[index], caseSensitive);
      ItemsNoTest(path, from, to, index + 1, caseSensitive);
    } else {
      TailsNoTest(path, index, |from.items| - index, to.items[index..], caseSensitive);
    }
  }

  lemma {:induction false} MembersNoTest(path: string, whole: Value, from: Members, to: Members, caseSensitive: bool)
    requires whole.Object? && forall e :: e in from ==> e in whole.members
    ensures NoTest(CreateMemberPatches(path, whole, from, to, caseSensitive), caseSensitive)
    decreases whole, 1, |from| + |to|
  {
    hide MakePatch, DecodeOperation;
    if from != [] || to != [] {
      var diff := if from == [] then 1 else if to == [] then -1 else CompareStrings(from[0].key, to[0].key, caseSensitive);
      if diff == 0 {
        assert from[0] in whole.members;
        GeneratedNoTest(path + "/" + Encode(from[0].key), from[0].item, to[0].item, caseSensitive);
        MembersNoTest(path, whole, from[1..], to[1..], caseSensitive);
      } else if diff < 0 {
        MadeNoTest("remove", path + "/" + Encode(from[0].key), None, caseSensitive);
        MembersNoTest(path, whole, from[1..], to, caseSensitive);
      } else {
        MadeNoTest("add", path + "/" + Encode(to[0].key), Some(to[0].item), caseSensitive);
        MembersNoTest(path, whole, from, to[1..], caseSensitive);
      }
    }
  }

  /** Diff, then apply, on the lists as they are linked: on any document whose records are right. */
  lemma DiffThenApplyTree(t: Tree, from: Value, to: Value, keys: iset<string>, caseSensitive: bool)
    requires Whole(t) && Tame(Plain(t), keys) && Tame(from, keys) && Tame(to, keys) && Addressable(keys)
    requires Denote(Plain(t)) == Denote(from)
    ensures var r := ApplyAllTree(t, CreatePatches("", from, to, caseSensitive), caseSensitive);
            r.status == 0 && Whole(r.tree) && Denote(Plain(r.tree)) == Denote(to)
  {
    var patches := CreatePatches("", from, to, caseSensitive);
    DiffThenApply(Plain(t), from, to, keys, caseSensitive);
    GeneratedNoTest("", from, to, caseSensitive);
    hide ApplyAll, ApplyAllTree, CreatePatches, Whole, Tame, Addressable, NoTest, RunMovesEnds;
    NoTestMovesNothing(Plain(t), patches, caseSensitive);
    WholeRun(t, patches, caseSensitive);
  }

  // ---- An addition behind a test ------------------------------------------------------------

  /** Overwriting the node a pointer leads to does not lead it elsewhere. */
  lemma {:induction false} SameNode(v: Value, pointer: string, w: Value, caseSensitive: bool)
    requires GetItem(v, pointer, caseSensitive).Some?
    ensures GetItem(Put(v, GetItem(v, pointer, caseSensitive).value, w), pointer, caseSensitive)
         == GetItem(v, pointer, caseSensitive)
    decreases |pointer|
  {
    if pointer != [] && pointer[0] == '/' {
      var token := pointer[1..];
      var i := Select(v, token, caseSensitive).value;
      var a := GetItem(Child(v, i), SkipToken(token), caseSensitive).value;
      var below := Put(Child(v, i), a, w);
      SameNode(Child(v, i), SkipToken(token), w, caseSensitive);
      assert ([i] + a)[1..] == a;
      SameSelect(v, i, below, token, caseSensitive);
    }
  }

  lemma SameSelect(v: Value, i: nat, w: Value, token: string, caseSensitive: bool)
    requires i < ChildCount(v)
    ensures Select(PutChild(v, i, w), token, caseSensitive) == Select(v, token, caseSensitive)
    ensures ChildCount(PutChild(v, i, w)) == ChildCount(v) && Child(PutChild(v, i, w), i) == w
  {
    if v.Object? { SameTokens(v.members, v.members[i := Entry(v.members[i].key, w)], token, caseSensitive); }
  }

  lemma {:induction false} SameTokens(m: Members, n: Members, token: string, caseSensitive: bool)
    requires |m| == |n| && forall i :: 0 <= i < |m| ==> m[i].key == n[i].key
    ensures FindByToken(m, token, caseSensitive) == FindByToken(n, token, caseSensitive)
  {
    if m != [] { SameTokens(m[1..], n[1..], token, caseSensitive); }
  }

  lemma {:induction false} TreeAtPut(t: Tree, a: Address, w: Tree)
    requires IsNode(Plain(t), a)
    ensures IsNode(Plain(TreePut(t, a, w)), a) && TreeAt(TreePut(t, a, w), a) == w
    decreases |a|
  {
    AtPut(Plain(t), a, Plain(w));
    if a != [] {
      TreeAtPut(ChildTree(t, a[0]), a[1..], w);
    }
  }

  lemma {:induction false} SameIndex<T>(m: seq<Entry<T>>, n: Members, name: string, caseSensitive: bool)
    requires |m| == |n| && forall i :: 0 <= i < |m| ==> m[i].key == n[i].key
    ensures IndexOf(m, name, caseSensitive) == IndexOf(n, name, caseSensitive)
  {
    if m != [] { SameIndex(m[1..], n[1..], name, caseSensitive); }
  }

  /** A path one token longer. */
  lemma SplitsThere(parent: string, token: string)
    requires '/' !in token
    ensures SplitLast(parent + "/" + token) == Split(parent, token)
  {
    LastSlash(parent + "/" + token, |parent|);
    assert (parent + "/" + token)[..|parent|] == parent;
    assert (parent + "/" + token)[|parent| + 1..] == token;
  }

  lemma {:induction false} LastSlash(path: string, at: nat)
    requires at < |path| && path[at] == '/' && forall i :: at < i < |path| ==> path[i] != '/'
    ensures SplitLast(path) == Split(path[..at], path[at + 1..])
    decreases |path|
  {
    if at < |path| - 1 {
      var front := path[..|path| - 1];
      LastSlash(front, at);
      assert front[..at] == path[..at];
      assert front[at + 1..] + [path[|path| - 1]] == path[at + 1..];
    }
  }

  /** The object as the test leaves it. */
  lemma TestedObject(t: Tree, pointer: string, w: Value, caseSensitive: bool)
    requires Whole(t) && GetItem(Plain(t), pointer, caseSensitive).Some?
    requires At(Plain(t), GetItem(Plain(t), pointer, caseSensitive).value).Object? && w.Object?
    ensures var a := GetItem(Plain(t), pointer, caseSensitive).value;
            var members := At(Plain(t), a).members;
            var tested := TestTree(t, a, w, caseSensitive).tree;
            && GetItem(Plain(tested), pointer, caseSensitive) == Some(a)
            && var node := TreeAt(tested, a);
               && node.Record? && |node.members| == |members|
               && (Complete(Tailed(node.members, node.tail)) <==> EndsStay(members, caseSensitive))
               && forall name :: IndexOf(PlainMembers(node.members), name, caseSensitive)
                              == IndexOf(Sort(members, caseSensitive), name, caseSensitive)
  {
    var a := GetItem(Plain(t), pointer, caseSensitive).value;
    var node := TreeAt(t, a);
    SameNode(Plain(t), pointer, Plain(Compared(node, w, caseSensitive)), caseSensitive);
    TreeAtPut(t, a, Compared(node, w, caseSensitive));
    ComparedObject(node, w, caseSensitive);
    hide GetItem, At, IsNode, TreeAt, TreePut, Put, Compared, Whole, Sort, Complete, EndsStay, IndexOf;
  }

  lemma ComparedObject(node: Tree, w: Value, caseSensitive: bool)
    requires Whole(node) && node.Record? && w.Object?
    ensures var r, members := Compared(node, w, caseSensitive), PlainMembers(node.members);
            && r.Record? && |r.members| == |members|
            && (Complete(Tailed(r.members, r.tail)) <==> EndsStay(members, caseSensitive))
            && forall name :: IndexOf(PlainMembers(r.members), name, caseSensitive)
                           == IndexOf(Sort(members, caseSensitive), name, caseSensitive)
  {
    var members, s, t := PlainMembers(node.members), Sort(node.members, caseSensitive), Sort(w.members, caseSensitive);
    ComparedUnfolds(node, w, caseSensitive);
    SortedRecord(node, caseSensitive);
    PlainSorted(node.members, caseSensitive);
    var l := SortedList(Tailed(node.members, node.tail), caseSensitive);
    var r := ComparedMembers(node, s, t, caseSensitive);
    ComparedKeys(node, s, t, caseSensitive);
    SameRecord(s, r, l);
    hide Sort, SortedList, Compared, ComparedMembers, Whole, Complete, EndsStay;
    forall name ensures IndexOf(PlainMembers(r), name, caseSensitive) == IndexOf(PlainMembers(s), name, caseSensitive) {
      SameIndex(PlainMembers(r), PlainMembers(s), name, caseSensitive);
    }
  }

  lemma {:induction false} ComparedKeys(whole: Tree, a: seq<Entry<Tree>>, b: Members, caseSensitive: bool)
    requires whole.Record? && forall e :: e in a ==> e in whole.members
    ensures var r := ComparedMembers(whole, a, b, caseSensitive);
            |r| == |a| && forall i :: 0 <= i < |a| ==> r[i].key == a[i].key
    decreases |a|
  {
    if a != [] && b != [] && CompareStrings(a[0].key, b[0].key, caseSensitive) == 0 {
      ComparedKeys(whole, a[1..], b[1..], caseSensitive);
    }
  }

  /**
   An addition to an object that a `test` has compared, in a document whose records were right. It always
   succeeds. It does what it should exactly when the first and the last member kept their places in the
   sort, or the member it replaces is the last one of the sorted object.
   */
  lemma AddBehindTest(t: Tree, pointer: string, w: Value, token: string, x: Value, caseSensitive: bool)
    requires Whole(t) && GetItem(Plain(t), pointer, caseSensitive).Some? && '/' !in token
    requires At(Plain(t), GetItem(Plain(t), pointer, caseSensitive).value).Object? && w.Object?
    ensures var tested := ApplyTree(t, MakePatch("test", pointer, Some(w)), caseSensitive).tree;
            var addition := MakePatch("add", pointer + "/" + token, Some(x));
            var members := At(Plain(t), GetItem(Plain(t), pointer, caseSensitive).value).members;
            var r := ApplyTree(tested, addition, caseSensitive);
            && r.status == 0
            && (Plain(r.tree) == ApplyPatch(Plain(tested), addition, caseSensitive).root
                <==> || EndsStay(members, caseSensitive)
                     || IndexOf(Sort(members, caseSensitive), DecodeInPlace(token), caseSensitive) == |members| - 1)
  {
    var a := GetItem(Plain(t), pointer, caseSensitive).value;
    var addition := MakePatch("add", pointer + "/" + token, Some(x));
    ReadsTestTree(t, pointer, w, caseSensitive);
    TestedObject(t, pointer, w, caseSensitive);
    var tested := TestTree(t, a, w, caseSensitive).tree;
    SplitsThere(pointer, token);
    ReadsAddTree(tested, pointer + "/" + token, x, caseSensitive);
    AddTreeExactly(tested, pointer + "/" + token, Copied(x), caseSensitive);
    ReadsAdd(Plain(tested), pointer + "/" + token, x, caseSensitive);
    AtRecord(tested, pointer + "/" + token, a, Copied(x), caseSensitive);
    hide *;
  }

  lemma ReadsTestTree(t: Tree, pointer: string, w: Value, caseSensitive: bool)
    requires GetItem(Plain(t), pointer, caseSensitive).Some?
    ensures ApplyTree(t, MakePatch("test", pointer, Some(w)), caseSensitive)
         == TestTree(t, GetItem(Plain(t), pointer, caseSensitive).value, w, caseSensitive)
  {
    ReadsOperation("test", pointer, Some(w), caseSensitive);
    OperationNames();
    hide TestTree, GetItem, GetObjectItem, MakePatch;
    assert DecodeOperation(MakePatch("test", pointer, Some(w)), caseSensitive) == Test;
  }

  lemma ReadsAddTree(t: Tree, path: string, x: Value, caseSensitive: bool)
    requires path != ""
    ensures ApplyTree(t, MakePatch("add", path, Some(x)), caseSensitive) == AddTree(t, path, Copied(x), caseSensitive)
  {
    ReadsOperation("add", path, Some(x), caseSensitive);
    hide AddTree, GetItem, GetObjectItem, MakePatch, Copied;
    assert DecodeOperation(MakePatch("add", path, Some(x)), caseSensitive) == Add;
  }
}

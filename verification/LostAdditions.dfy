/**
 Inputs on which a comparison does more than compare: a `test` that fails and leaves the document in
 another order; one that succeeds, and the addition behind it reports success and adds nothing; and a
 generated patch, applied to the tree it was generated from.
 */
module LostAdditions {
  import opened Compare
  import opened CString
  import opened Diff
  import opened Json
  import opened KeySort
  import opened Patch
  import opened PatchOps
  import opened Pointer
  import opened SortThenAppend
  import opened Tails
  import opened TestThenAdd
  import opened TreePatch
  import opened Trees
  import opened Visits

  const ONE: Value := Number(1.0)
  const TWO: Value := Number(2.0)

  /** `{"b": 1, "a": 2}` */
  const UNSORTED: Value := Object([Entry("b", ONE), Entry("a", TWO)])

  /** `{"a": 2, "b": 1}` */
  const SORTED: Value := Object([Entry("a", TWO), Entry("b", ONE)])

  /** The document as the caller holds it: the tail recorded is `a`. */
  const DOCUMENT: Tree := Record([Entry("b", Atom(ONE)), Entry("a", Atom(TWO))], TailAt(1))

  /** The document behind the test: no tail is recorded. */
  const TESTED: Tree := Record([Entry("a", Atom(TWO)), Entry("b", Atom(ONE))], NoTail)

  lemma PlainDocument()
    ensures Plain(DOCUMENT) == UNSORTED && Plain(TESTED) == SORTED && Whole(DOCUMENT)
  {
    assert PlainMembers(DOCUMENT.members) == UNSORTED.members;
    assert PlainMembers(TESTED.members) == SORTED.members;
  }

  lemma SortedStays<T>(a: T, b: T)
    ensures Sort([Entry("a", a), Entry("b", b)], true) == [Entry("a", a), Entry("b", b)]
  {
    Letters();
  }

  /** The sort gives `a` the first place, so the new head has recorded nothing. */
  lemma DocumentSorts()
    ensures SortedList(Tailed(DOCUMENT.members, DOCUMENT.tail), true) == Tailed(TESTED.members, NoTail)
  {
    var keys := Keys(DOCUMENT.members);
    assert keys == ["b", "a"];
    assert Numbered(keys) == [Entry("b", 0), Entry("a", 1)];
    PairSorts<nat>(1, 0);
    assert Order(keys, true) == [1, 0];
    SortedListIs(Tailed(DOCUMENT.members, DOCUMENT.tail), true);
    PairSorts(Atom(TWO), Atom(ONE));
    hide Sort, Order;
  }

  lemma OneIsOne()
    ensures CompareJson(ONE, ONE, true) && CompareJson(TWO, TWO, true)
    ensures CompareStrings("a", "a", true) == 0 && CompareStrings("b", "b", true) == 0
  {
    CompareDoubleIsEquality(1.0, 1.0);
    CompareDoubleIsEquality(2.0, 2.0);
    CompareZero("a", "a", true);
    CompareZero("b", "b", true);
  }

  lemma AtomStays(v: Scalar, w: Value)
    ensures Compared(Atom(v), w, true) == Atom(v)
  {}

  lemma TwoMembers<T>(m: seq<T>)
    requires |m| == 2
    ensures m[1..][1..] == [] && m == [m[0]] + m[1..] && m[1..] == [m[1]] + []
  {}

  /** The walk over the two members finds no difference and nothing more to sort. */
  lemma DocumentWalk()
    ensures forall e :: e in TESTED.members ==> e in DOCUMENT.members
    ensures ComparedMembers(DOCUMENT, TESTED.members, SORTED.members, true) == TESTED.members
  {
    AtomStays(TWO, TWO);
    AtomStays(ONE, ONE);
    OneIsOne();
    TwoMembers(TESTED.members);
    TwoMembers(SORTED.members);
    hide CompareJson, CompareStrings;
    assert ComparedMembers(DOCUMENT, TESTED.members[1..], SORTED.members[1..], true) == TESTED.members[1..];
  }

  lemma WalkEqual()
    ensures CompareInStep(UNSORTED, SORTED.members, SORTED.members, true)
  {
    OneIsOne();
    TwoMembers(SORTED.members);
    hide CompareJson, CompareStrings;
    assert CompareInStep(UNSORTED, SORTED.members[1..], SORTED.members[1..], true);
  }

  /** The comparison succeeds, and leaves the members in order and no tail recorded. */
  lemma DocumentTested()
    ensures CompareJson(UNSORTED, SORTED, true)
    ensures Compared(DOCUMENT, SORTED, true) == TESTED
  {
    PairSorts(TWO, ONE);
    SortedStays(TWO, ONE);
    WalkEqual();
    PlainDocument();
    DocumentSorts();
    DocumentWalk();
    SortedListIs(Tailed(DOCUMENT.members, DOCUMENT.tail), true);
    hide Sort, SortedList, ComparedMembers, CompareInStep;
    ComparedUnfolds(DOCUMENT, SORTED, true);
  }

  lemma EmptyTested()
    ensures Visited(UNSORTED, Object([]), true) == SORTED && !CompareJson(UNSORTED, Object([]), true)
  {
    var none: Members := [];
    PairSorts(TWO, ONE);
    assert Sort(none, true) == none;
    hide Sort;
    assert !CompareInStep(UNSORTED, SORTED.members, none, true);
  }

  lemma DecodesTest(path: string, w: Value)
    ensures DecodeOperation(MakePatch("test", path, Some(w)), true) == Test
  {
    ReadsOperation("test", path, Some(w), true);
    OperationNames();
    hide MakePatch, GetObjectItem;
  }

  /** Input 1: the test fails, takes nothing out, and the document is in another order. */
  lemma FailingTestSorts()
    ensures var patch := MakePatch("test", "", Some(Object([])));
            ApplyPatch(UNSORTED, patch, true) == Patched(SORTED, 1) && !TakesOutFirst(UNSORTED, patch, true)
  {
    var patch := MakePatch("test", "", Some(Object([])));
    EmptyTested();
    assert GetItem(UNSORTED, "", true) == Some([]);
    ReadsTest(UNSORTED, "", Object([]), true);
    DecodesTest("", Object([]));
    PatchOps.NoTest(UNSORTED, patch, true);
    hide MakePatch, TakesOutFirst, Visited, CompareJson, ApplyPatch, DecodeOperation;
  }

  lemma KeyC(x: Value)
    ensures SplitLast("/c") == Split("", "c") && DecodeInPlace("c") == "c"
    ensures IndexOf(SORTED.members, "c", true) == 2
    ensures WithoutMember(SORTED.members, "c", true) == SORTED.members
  {
    SplitsThere("", "c");
    assert "" + "/" + "c" == "/c";
    assert "c"[0] == 'c' && "a"[0] == 'a' && "b"[0] == 'b';
    assert CompareStrings("c", "a", true) != 0 && CompareStrings("c", "b", true) != 0;
    TwoMembers(SORTED.members);
    assert IndexOf(SORTED.members[1..], "c", true) == 1;
  }

  lemma TestStep()
    ensures var patch := MakePatch("test", "", Some(SORTED));
            && ApplyTree(DOCUMENT, patch, true) == TreePatched(TESTED, 0)
            && ApplyPatch(UNSORTED, patch, true) == Patched(SORTED, 0)
  {
    PlainDocument();
    DocumentTested();
    PlainCompared(DOCUMENT, SORTED, true);
    assert GetItem(UNSORTED, "", true) == Some([]);
    hide MakePatch, ApplyTree, ApplyPatch, Compared, CompareJson, Visited, Plain;
    ReadsTestTree(DOCUMENT, "", SORTED, true);
    ReadsTest(UNSORTED, "", SORTED, true);
  }

  lemma AddStep(x: Value)
    ensures var patch := MakePatch("add", "/c", Some(x));
            && ApplyTree(TESTED, patch, true) == TreePatched(TESTED, 0)
            && ApplyPatch(SORTED, patch, true) == Patched(Object(SORTED.members + [Entry("c", x)]), 0)
  {
    PlainDocument();
    KeyC(x);
    assert GetItem(SORTED, "", true) == Some([]);
    hide MakePatch, ApplyTree, ApplyPatch, AddTree, AddAt, WithoutMember, IndexOf, SplitLast, DecodeInPlace;
    ReadsAddTree(TESTED, "/c", x, true);
    ReadsAdd(SORTED, "/c", x, true);
    AtRecord(TESTED, "/c", [], Copied(x), true);
    AtObject(SORTED, "/c", [], x, true);
    assert PlainMembers(TESTED.members) == SORTED.members;
  }

  /** Input 2: the test succeeds, and the addition behind it reports success and adds nothing. */
  lemma AdditionLost(x: Value)
    ensures var patches := [MakePatch("test", "", Some(SORTED)), MakePatch("add", "/c", Some(x))];
            && ApplyAllTree(DOCUMENT, patches, true) == TreePatched(TESTED, 0)
            && ApplyAll(UNSORTED, patches, true) == Patched(Object(SORTED.members + [Entry("c", x)]), 0)
  {
    var patches := [MakePatch("test", "", Some(SORTED)), MakePatch("add", "/c", Some(x))];
    TestStep();
    AddStep(x);
    TwoMembers(patches);
    hide MakePatch, ApplyTree, ApplyPatch;
    assert ApplyAllTree(TESTED, patches[1..], true) == TreePatched(TESTED, 0);
    assert ApplyAll(SORTED, patches[1..], true) == Patched(Object(SORTED.members + [Entry("c", x)]), 0);
  }

  // ---- Generating, and applying to the same tree --------------------------------------------

  lemma ThreeSorted(x: Value)
    ensures Sort(SORTED.members + [Entry("c", x)], true) == SORTED.members + [Entry("c", x)]
  {
    Letters();
    var s := SORTED.members + [Entry("c", x)];
    assert s[0] == SORTED.members[0] && s[1] == SORTED.members[1] && s[2] == Entry("c", x);
    assert StrictlySorted(s, true);
  }

  lemma GeneratedWalk(x: Value)
    ensures forall e :: e in SORTED.members ==> e in UNSORTED.members
    ensures CreateMemberPatches("", UNSORTED, SORTED.members, SORTED.members + [Entry("c", x)], true)
         == [MakePatch("add", "/c", Some(x))]
  {
    var m, n := SORTED.members, SORTED.members + [Entry("c", x)];
    OneIsOne();
    assert Encode("c") == "c" && "" + "/" + "c" == "/c" by { assert "c"[1..] == []; }
    assert n[0] == m[0] && n[1..][0] == m[1..][0] && n[1..][1..] == [Entry("c", x)] && m[1..][1..] == [];
    hide MakePatch, CompareStrings, Encode, CompareJson;
    var add := MakePatch("add", "/c", Some(x));
    assert CreateMemberPatches("", UNSORTED, [], [], true) == [];
    assert CreateMemberPatches("", UNSORTED, [], [Entry("c", x)], true) == [add] by {
      assert [Entry("c", x)][1..] == [] && [add] + [] == [add];
    }
    assert CreatePatches("" + "/" + Encode("b"), ONE, ONE, true) == [];
    assert CreatePatches("" + "/" + Encode("a"), TWO, TWO, true) == [];
    assert [] + [add] == [add];
    assert CreateMemberPatches("", UNSORTED, m[1..], n[1..], true) == [add];
  }

  lemma GeneratedIs(x: Value)
    ensures CreatePatches("", UNSORTED, Object(SORTED.members + [Entry("c", x)]), true) == [MakePatch("add", "/c", Some(x))]
  {
    PairSorts(TWO, ONE);
    ThreeSorted(x);
    GeneratedWalk(x);
    hide Sort, CreateMemberPatches, MakePatch;
  }

  /**
   Input 3: the generator sorts the tree it compares. Applied to that very tree, what it generates reports
   success and adds nothing; applied to a copy, it adds the member.
   */
  lemma GeneratedAdditionLost(x: Value)
    ensures var patches := CreatePatches("", UNSORTED, Object(SORTED.members + [Entry("c", x)]), true);
            && Record(TESTED.members, SortedList(Tailed(DOCUMENT.members, DOCUMENT.tail), true).tail) == TESTED
            && ApplyAllTree(TESTED, patches, true) == TreePatched(TESTED, 0)
            && ApplyAll(SORTED, patches, true) == Patched(Object(SORTED.members + [Entry("c", x)]), 0)
  {
    var patches := CreatePatches("", UNSORTED, Object(SORTED.members + [Entry("c", x)]), true);
    DocumentSorts();
    GeneratedIs(x);
    AddStep(x);
    assert patches[1..] == [];
    hide MakePatch, ApplyTree, ApplyPatch, CreatePatches, SortedList;
    assert ApplyAllTree(TESTED, patches[1..], true) == TreePatched(TESTED, 0);
  }
}

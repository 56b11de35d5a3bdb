/**
 The order in which `sort_list` leaves a child list: a merge sort by key that returns a strictly
 sorted list untouched and takes from the second half on a tie. `ListSort` proves that the in-place
 linked-list code produces exactly this order; `Compare`, `Diff` and `MergePatch` rely on it.
 */
module KeySort {
  import opened CString
  import opened Json

  function CompareKeys<T>(a: Entry<T>, b: Entry<T>, caseSensitive: bool): int {
    CompareStrings(a.key, b.key, caseSensitive)
  }

  /** The test that leaves a list unmodified. */
  predicate StrictlySorted<T>(s: seq<Entry<T>>, caseSensitive: bool) {
    forall i :: 0 < i < |s| ==> CompareKeys(s[i - 1], s[i], caseSensitive) < 0
  }

  function Merge<T>(a: seq<Entry<T>>, b: seq<Entry<T>>, caseSensitive: bool): (r: seq<Entry<T>>)
    ensures |r| == |a| + |b|
  {
    if a == [] then b
    else if b == [] then a
    else if CompareKeys(a[0], b[0], caseSensitive) < 0 then [a[0]] + Merge(a[1..], b, caseSensitive)
    else [b[0]] + Merge(a, b[1..], caseSensitive)
  }

  function Sort<T>(s: seq<Entry<T>>, caseSensitive: bool): (r: seq<Entry<T>>)
    ensures |r| == |s|
    decreases |s|
  {
    if |s| <= 1 || StrictlySorted(s, caseSensitive) then s
    else
      var middle := (|s| + 1) / 2;
      Merge(Sort(s[..middle], caseSensitive), Sort(s[middle..], caseSensitive), caseSensitive)
  }

  ghost predicate NonDecreasing<T>(s: seq<Entry<T>>, caseSensitive: bool) {
    forall i, j :: 0 <= i < j < |s| ==> CompareKeys(s[i], s[j], caseSensitive) <= 0
  }

  // ---- Sorting permutes ---------------------------------------------------------------------

  lemma MergeUnfolds<T>(a: seq<Entry<T>>, b: seq<Entry<T>>, caseSensitive: bool)
    requires a != [] && b != []
    ensures Merge(a, b, caseSensitive)
         == if CompareKeys(a[0], b[0], caseSensitive) < 0 then [a[0]] + Merge(a[1..], b, caseSensitive)
            else [b[0]] + Merge(a, b[1..], caseSensitive)
  {}

  lemma HeadAndTail<T>(s: seq<T>)
    requires s != []
    ensures multiset(s) == multiset{s[0]} + multiset(s[1..])
  {
    assert s == [s[0]] + s[1..];
  }

  lemma {:induction false} MergePermutes<T>(a: seq<Entry<T>>, b: seq<Entry<T>>, caseSensitive: bool)
    ensures multiset(Merge(a, b, caseSensitive)) == multiset(a) + multiset(b)
  {
    if a != [] && b != [] {
      MergeUnfolds(a, b, caseSensitive);
      hide Merge, CompareKeys;
      if CompareKeys(a[0], b[0], caseSensitive) < 0 {
        MergePermutes(a[1..], b, caseSensitive);
        HeadAndTail(a);
      } else {
        MergePermutes(a, b[1..], caseSensitive);
        HeadAndTail(b);
      }
    }
  }

  lemma Halves<T>(s: seq<T>, m: nat)
    requires m <= |s|
    ensures multiset(s[..m]) + multiset(s[m..]) == multiset(s)
  {
    assert s == s[..m] + s[m..];
  }

  lemma SortUnfolds<T>(s: seq<Entry<T>>, caseSensitive: bool)
    requires |s| > 1 && !StrictlySorted(s, caseSensitive)
    ensures var m := (|s| + 1) / 2;
            Sort(s, caseSensitive) == Merge(Sort(s[..m], caseSensitive), Sort(s[m..], caseSensitive), caseSensitive)
  {}

  lemma {:induction false} SortPermutes<T>(s: seq<Entry<T>>, caseSensitive: bool)
    ensures multiset(Sort(s, caseSensitive)) == multiset(s)
    decreases |s|
  {
    if |s| > 1 && !StrictlySorted(s, caseSensitive) {
      var m := (|s| + 1) / 2;
      SortUnfolds(s, caseSensitive);
      hide *;
      SortPermutes(s[..m], caseSensitive);
      SortPermutes(s[m..], caseSensitive);
      MergePermutes(Sort(s[..m], caseSensitive), Sort(s[m..], caseSensitive), caseSensitive);
      Halves(s, m);
    }
  }

  lemma SameElements<T>(s: seq<T>, t: seq<T>)
    requires multiset(s) == multiset(t)
    ensures forall e :: e in s <==> e in t
  {
    forall e ensures e in s <==> e in t {
      assert e in s <==> e in multiset(s);
      assert e in t <==> e in multiset(t);
    }
  }

  lemma SortMembers<T>(s: seq<Entry<T>>, caseSensitive: bool)
    ensures forall e :: e in Sort(s, caseSensitive) <==> e in s
  {
    SortPermutes(s, caseSensitive);
    SameElements(s, Sort(s, caseSensitive));
  }

  lemma SortedFrom<T>(s: seq<Entry<T>>, sorted: seq<Entry<T>>, caseSensitive: bool)
    requires sorted == Sort(s, caseSensitive)
    ensures forall e :: e in sorted ==> e in s
  {
    SortMembers(s, caseSensitive);
  }

  // ---- Sorting sorts ------------------------------------------------------------------------

  lemma {:induction false} StrictlySortedIsNonDecreasing<T>(s: seq<Entry<T>>, i: nat, j: nat, caseSensitive: bool)
    requires StrictlySorted(s, caseSensitive) && i < j < |s|
    ensures CompareKeys(s[i], s[j], caseSensitive) <= 0
    decreases j
  {
    if i + 1 < j {
      StrictlySortedIsNonDecreasing(s, i, j - 1, caseSensitive);
      CompareTransitive(s[i].key, s[j - 1].key, s[j].key, caseSensitive);
    }
  }

  /** `e` may stand in front of `s`. */
  ghost predicate Least<T>(e: Entry<T>, s: seq<Entry<T>>, caseSensitive: bool) {
    forall i :: 0 <= i < |s| ==> CompareKeys(e, s[i], caseSensitive) <= 0
  }

  lemma {:induction false} MergeLeast<T>(e: Entry<T>, a: seq<Entry<T>>, b: seq<Entry<T>>, caseSensitive: bool)
    requires Least(e, a, caseSensitive) && Least(e, b, caseSensitive)
    ensures Least(e, Merge(a, b, caseSensitive), caseSensitive)
  {
    if a != [] && b != [] {
      if CompareKeys(a[0], b[0], caseSensitive) < 0 {
        MergeLeast(e, a[1..], b, caseSensitive);
      } else {
        MergeLeast(e, a, b[1..], caseSensitive);
      }
    }
  }

  lemma {:induction false} LeastStepsDown<T>(e: Entry<T>, s: seq<Entry<T>>, caseSensitive: bool)
    requires s != [] && NonDecreasing(s, caseSensitive) && CompareKeys(e, s[0], caseSensitive) <= 0
    ensures Least(e, s, caseSensitive)
  {
    forall i | 0 < i < |s| ensures CompareKeys(e, s[i], caseSensitive) <= 0 {
      CompareTransitive(e.key, s[0].key, s[i].key, caseSensitive);
    }
  }

  lemma {:induction false} MergeSorts<T>(a: seq<Entry<T>>, b: seq<Entry<T>>, caseSensitive: bool)
    requires NonDecreasing(a, caseSensitive) && NonDecreasing(b, caseSensitive)
    ensures NonDecreasing(Merge(a, b, caseSensitive), caseSensitive)
  {
    if a != [] && b != [] {
      CompareFlips(a[0].key, b[0].key, caseSensitive);
      if CompareKeys(a[0], b[0], caseSensitive) < 0 {
        MergeSorts(a[1..], b, caseSensitive);
        LeastStepsDown(a[0], b, caseSensitive);
        MergeLeast(a[0], a[1..], b, caseSensitive);
      } else {
        MergeSorts(a, b[1..], caseSensitive);
        LeastStepsDown(b[0], a, caseSensitive);
        MergeLeast(b[0], a, b[1..], caseSensitive);
      }
    }
  }

  /** The result is non-decreasing, whatever the ties. */
  lemma {:induction false} SortSorts<T>(s: seq<Entry<T>>, caseSensitive: bool)
    ensures NonDecreasing(Sort(s, caseSensitive), caseSensitive)
    decreases |s|
  {
    if |s| > 1 && !StrictlySorted(s, caseSensitive) {
      var middle := (|s| + 1) / 2;
      SortSorts(s[..middle], caseSensitive);
      SortSorts(s[middle..], caseSensitive);
      MergeSorts(Sort(s[..middle], caseSensitive), Sort(s[middle..], caseSensitive), caseSensitive);
    } else {
      forall i, j | 0 <= i < j < |s| ensures CompareKeys(s[i], s[j], caseSensitive) <= 0 {
        StrictlySortedIsNonDecreasing(s, i, j, caseSensitive);
      }
    }
  }

  // ---- Sorting keeps the meaning ------------------------------------------------------------

  /** An element that occurs at two positions has multiplicity at least two. */
  lemma TwoPositions<T>(s: seq<T>, i: nat, j: nat)
    requires i < j < |s| && s[i] == s[j]
    ensures multiset(s)[s[i]] >= 2
  {
    assert s == s[..i] + [s[i]] + s[i + 1..j] + [s[j]] + s[j + 1..];
  }

  /** ... and conversely. */
  lemma {:induction false} TwoOccurrences<T>(s: seq<T>, x: T) returns (i: nat, j: nat)
    requires multiset(s)[x] >= 2
    ensures i < j < |s| && s[i] == s[j] == x
  {
    assert s == [s[0]] + s[1..];
    if s[0] == x {
      assert x in multiset(s[1..]);
      i := 0;
      var k :| 0 <= k < |s[1..]| && s[1..][k] == x;
      j := k + 1;
    } else {
      i, j := TwoOccurrences(s[1..], x);
      i, j := i + 1, j + 1;
    }
  }

  lemma {:induction false} PermutationKeepsDistinct<T>(s: seq<Entry<T>>, t: seq<Entry<T>>)
    requires multiset(s) == multiset(t) && DistinctKeys(s)
    ensures DistinctKeys(t)
  {
    SameElements(s, t);
    forall i, j | 0 <= i < j < |t| ensures t[i].key != t[j].key {
      assert t[i] in s && t[j] in s;
      var k :| 0 <= k < |s| && s[k] == t[i];
      var l :| 0 <= l < |s| && s[l] == t[j];
      if k == l {
        TwoPositions(t, i, j);
        var m, n := TwoOccurrences(s, t[i]);
      }
    }
  }

  lemma SortKeepsDistinct<T>(s: seq<Entry<T>>, caseSensitive: bool)
    requires DistinctKeys(s)
    ensures DistinctKeys(Sort(s, caseSensitive))
  {
    SortPermutes(s, caseSensitive);
    PermutationKeepsDistinct(s, Sort(s, caseSensitive));
  }

  /** Sorting an object does not change what it means. */
  lemma SortKeepsMeaning(members: Members, caseSensitive: bool)
    requires DistinctKeys(members)
    ensures DistinctKeys(Sort(members, caseSensitive))
    ensures DenoteMembers(Sort(members, caseSensitive)) == DenoteMembers(members)
  {
    var s := Sort(members, caseSensitive);
    SortKeepsDistinct(members, caseSensitive);
    SortMembers(members, caseSensitive);
    DenoteMembersAll(members);
    forall i | 0 <= i < |s|
      ensures s[i].key in DenoteMembers(members) && DenoteMembers(members)[s[i].key] == Denote(s[i].item)
    {
      assert s[i] in s;
      var j :| 0 <= j < |members| && members[j] == s[i];
    }
    forall k | k in DenoteMembers(members).Keys ensures HasKey(s, k) {
      DenoteMembersKeys(members, k);
      var i :| 0 <= i < |members| && members[i].key == k;
      assert members[i] in s;
    }
    DenoteMembersIs(s, DenoteMembers(members));
  }

  /** With distinct keys (up to case, if case is ignored) the order is strict. */
  lemma StrictWhenDistinct<T>(s: seq<Entry<T>>, caseSensitive: bool)
    requires NonDecreasing(s, caseSensitive)
    requires forall i, j :: 0 <= i < j < |s| ==> Fold(s[i].key, caseSensitive) != Fold(s[j].key, caseSensitive)
    ensures forall i, j :: 0 <= i < j < |s| ==> CompareKeys(s[i], s[j], caseSensitive) < 0
  {
    forall i, j | 0 <= i < j < |s| ensures CompareKeys(s[i], s[j], caseSensitive) < 0 {
      CompareZero(s[i].key, s[j].key, caseSensitive);
    }
  }
}

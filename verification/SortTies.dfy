/**
 The sort is not stable, in a definite way: members whose names compare equal come out in reverse order.
 With the order of the names and the permutation, that leaves no freedom.
 */
module SortTies {
  import opened CString
  import opened Json
  import opened KeySort

  /** The members whose name compares equal to `k`, in list order. */
  function WithKey<T>(s: seq<Entry<T>>, k: string, caseSensitive: bool): seq<Entry<T>> {
    if s == [] then []
    else (if CompareStrings(s[0].key, k, caseSensitive) == 0 then [s[0]] else []) + WithKey(s[1..], k, caseSensitive)
  }

  function Reverse<T>(s: seq<T>): (r: seq<T>)
    ensures |r| == |s|
  {
    if s == [] then [] else Reverse(s[1..]) + [s[0]]
  }

  lemma {:induction false} ReverseConcat<T>(a: seq<T>, b: seq<T>)
    ensures Reverse(a + b) == Reverse(b) + Reverse(a)
  {
    if a == [] {
      assert a + b == b && Reverse(b) + [] == Reverse(b);
    } else {
      assert (a + b)[1..] == a[1..] + b && (a + b)[0] == a[0];
      ReverseConcat(a[1..], b);
      Associative(Reverse(b), Reverse(a[1..]), [a[0]]);
    }
  }

  lemma {:induction false} WithKeyConcat<T>(a: seq<Entry<T>>, b: seq<Entry<T>>, k: string, caseSensitive: bool)
    ensures WithKey(a + b, k, caseSensitive) == WithKey(a, k, caseSensitive) + WithKey(b, k, caseSensitive)
  {
    if a == [] {
      assert a + b == b && [] + WithKey(b, k, caseSensitive) == WithKey(b, k, caseSensitive);
    } else {
      assert (a + b)[1..] == a[1..] + b && (a + b)[0] == a[0];
      WithKeyConcat(a[1..], b, k, caseSensitive);
      Associative(if CompareStrings(a[0].key, k, caseSensitive) == 0 then [a[0]] else [],
                  WithKey(a[1..], k, caseSensitive), WithKey(b, k, caseSensitive));
    }
  }

  /** Nothing has the key when everything is beyond it. */
  lemma {:induction false} NoneBeyond<T>(s: seq<Entry<T>>, k: string, caseSensitive: bool)
    requires forall i :: 0 <= i < |s| ==> CompareStrings(k, s[i].key, caseSensitive) < 0
    ensures WithKey(s, k, caseSensitive) == []
  {
    if s != [] {
      CompareFlips(k, s[0].key, caseSensitive);
      NoneBeyond(s[1..], k, caseSensitive);
    }
  }

  lemma SmallerFirst<T>(a: seq<Entry<T>>, b: seq<Entry<T>>, k: string, caseSensitive: bool)
    requires a != [] && b != [] && NonDecreasing(b, caseSensitive) && CompareKeys(a[0], b[0], caseSensitive) < 0
    ensures WithKey([a[0]], k, caseSensitive) + (WithKey(b, k, caseSensitive) + WithKey(a[1..], k, caseSensitive))
         == WithKey(b, k, caseSensitive) + (WithKey([a[0]], k, caseSensitive) + WithKey(a[1..], k, caseSensitive))
  {
    OneKey(a[0], k, caseSensitive);
    if CompareStrings(a[0].key, k, caseSensitive) == 0 { BeyondHead(a[0], b, k, caseSensitive); }
    Around(WithKey([a[0]], k, caseSensitive), WithKey(b, k, caseSensitive), WithKey(a[1..], k, caseSensitive));
  }

  lemma OneKey<T>(e: Entry<T>, k: string, caseSensitive: bool)
    ensures WithKey([e], k, caseSensitive) == if CompareStrings(e.key, k, caseSensitive) == 0 then [e] else []
  {
    assert [e][1..] == [];
  }

  lemma Around<T>(x: seq<T>, y: seq<T>, z: seq<T>)
    requires x == [] || y == []
    ensures x + (y + z) == y + (x + z)
  {}

  lemma {:induction false} MergeTies<T>(a: seq<Entry<T>>, b: seq<Entry<T>>, k: string, caseSensitive: bool)
    requires NonDecreasing(a, caseSensitive) && NonDecreasing(b, caseSensitive)
    ensures WithKey(Merge(a, b, caseSensitive), k, caseSensitive)
         == WithKey(b, k, caseSensitive) + WithKey(a, k, caseSensitive)
  {
    if a != [] && b != [] {
      MergeUnfolds(a, b, caseSensitive);
      hide Merge, WithKey;
      if CompareKeys(a[0], b[0], caseSensitive) < 0 {
        MergeTies(a[1..], b, k, caseSensitive);
        WithKeyConcat([a[0]], Merge(a[1..], b, caseSensitive), k, caseSensitive);
        WithKeyConcat([a[0]], a[1..], k, caseSensitive);
        assert a == [a[0]] + a[1..];
        SmallerFirst(a, b, k, caseSensitive);
      } else {
        MergeTies(a, b[1..], k, caseSensitive);
        WithKeyConcat([b[0]], Merge(a, b[1..], caseSensitive), k, caseSensitive);
        WithKeyConcat([b[0]], b[1..], k, caseSensitive);
        assert b == [b[0]] + b[1..];
        Associative(WithKey([b[0]], k, caseSensitive), WithKey(b[1..], k, caseSensitive), WithKey(a, k, caseSensitive));
      }
    }
  }

  /** When a smaller member has the key, none in the other list has. */
  lemma BeyondHead<T>(e: Entry<T>, b: seq<Entry<T>>, k: string, caseSensitive: bool)
    requires b != [] && NonDecreasing(b, caseSensitive) && CompareKeys(e, b[0], caseSensitive) < 0
    requires CompareStrings(e.key, k, caseSensitive) == 0
    ensures WithKey(b, k, caseSensitive) == []
  {
    CompareFlips(e.key, k, caseSensitive);
    forall i | 0 <= i < |b| ensures CompareStrings(k, b[i].key, caseSensitive) < 0 {
      CompareTransitive(k, e.key, b[0].key, caseSensitive);
      if i > 0 { CompareTransitive(k, b[0].key, b[i].key, caseSensitive); }
    }
    NoneBeyond(b, k, caseSensitive);
  }

  /** In a strictly sorted list at most one member has the key. */
  lemma {:induction false} AtMostOne<T>(s: seq<Entry<T>>, k: string, caseSensitive: bool)
    requires StrictlySorted(s, caseSensitive)
    ensures |WithKey(s, k, caseSensitive)| <= 1
  {
    if s != [] {
      var t := s[1..];
      assert forall i :: 0 < i < |t| ==> t[i - 1] == s[i] && t[i] == s[i + 1];
      AtMostOne(t, k, caseSensitive);
      if CompareStrings(s[0].key, k, caseSensitive) == 0 && t != [] {
        forall i, j | 0 <= i < j < |t| ensures CompareKeys(t[i], t[j], caseSensitive) <= 0 {
          StrictlySortedIsNonDecreasing(t, i, j, caseSensitive);
        }
        assert CompareKeys(s[0], s[1], caseSensitive) < 0 && t[0] == s[1];
        BeyondHead(s[0], t, k, caseSensitive);
      }
    }
  }

  /** Equal names come out in reverse order. */
  lemma {:induction false} TiesReverse<T>(s: seq<Entry<T>>, k: string, caseSensitive: bool)
    ensures WithKey(Sort(s, caseSensitive), k, caseSensitive) == Reverse(WithKey(s, k, caseSensitive))
    decreases |s|
  {
    if |s| <= 1 || StrictlySorted(s, caseSensitive) {
      FewStay(s, k, caseSensitive);
    } else {
      var m := (|s| + 1) / 2;
      var x, y := s[..m], s[m..];
      assert x + y == s && |x| < |s| && |y| < |s|;
      SortUnfolds(s, caseSensitive);
      hide *;
      TiesReverse(x, k, caseSensitive);
      TiesReverse(y, k, caseSensitive);
      HalvesReverse(x, y, k, caseSensitive);
    }
  }

  lemma HalvesReverse<T>(x: seq<Entry<T>>, y: seq<Entry<T>>, k: string, caseSensitive: bool)
    requires WithKey(Sort(x, caseSensitive), k, caseSensitive) == Reverse(WithKey(x, k, caseSensitive))
    requires WithKey(Sort(y, caseSensitive), k, caseSensitive) == Reverse(WithKey(y, k, caseSensitive))
    ensures WithKey(Merge(Sort(x, caseSensitive), Sort(y, caseSensitive), caseSensitive), k, caseSensitive)
         == Reverse(WithKey(x + y, k, caseSensitive))
  {
    hide *;
    SortSorts(x, caseSensitive);
    SortSorts(y, caseSensitive);
    MergeTies(Sort(x, caseSensitive), Sort(y, caseSensitive), k, caseSensitive);
    WithKeyConcat(x, y, k, caseSensitive);
    ReverseConcat(WithKey(x, k, caseSensitive), WithKey(y, k, caseSensitive));
  }

  lemma FewStay<T>(s: seq<Entry<T>>, k: string, caseSensitive: bool)
    requires |s| <= 1 || StrictlySorted(s, caseSensitive)
    ensures WithKey(Sort(s, caseSensitive), k, caseSensitive) == Reverse(WithKey(s, k, caseSensitive))
  {
    if |s| > 1 { AtMostOne(s, k, caseSensitive); }
    var w := WithKey(s, k, caseSensitive);
    assert |w| <= 1;
    if w != [] { assert w == [w[0]] && w[1..] == []; }
  }
}

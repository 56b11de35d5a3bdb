/**
 Exactly which keys the patch laws need: the condition of `DiffThenApply` and that of
 `GenerateThenMerge` are both necessary, and keys without upper-case letters, `~` and `/` meet them.
 */
module Limits {
  import opened CString
  import opened Compare
  import opened Diff
  import opened Digits
  import opened Json
  import opened KeySort
  import opened MergePatch
  import opened Patch
  import opened PatchEffects
  import opened Pointer

  // ---- Plain keys ---------------------------------------------------------------------------

  /** No upper-case letter, no `~` and no `/`. */
  predicate PlainKey(k: string) {
    forall i :: 0 <= i < |k| ==> !('A' <= k[i] <= 'Z') && k[i] != '~' && k[i] != '/'
  }

  ghost const PLAIN_KEYS: iset<string> := iset k: string | PlainKey(k)

  lemma PlainFolds(k: string)
    requires PlainKey(k)
    ensures Fold(k, false) == k
  {}

  lemma {:induction false} PlainSameOrder(k: string, l: string)
    requires PlainKey(k) && PlainKey(l)
    ensures CompareStrings(k, l, false) == CompareStrings(k, l, true)
  {
    if k != [] && l != [] { PlainSameOrder(k[1..], l[1..]); }
  }

  lemma PlainKeysServe()
    ensures Addressable(PLAIN_KEYS) && SameOrder(PLAIN_KEYS)
  {
    forall k | k in PLAIN_KEYS ensures SurvivesDecoding(k) {
      EncodePlain(k);
      DecodesPlain(k, 0);
    }
    forall k, l | k in PLAIN_KEYS && l in PLAIN_KEYS
      ensures CompareStrings(k, l, false) == CompareStrings(k, l, true)
      ensures Fold(k, false) == Fold(l, false) ==> k == l
    {
      PlainSameOrder(k, l);
      PlainFolds(k);
      PlainFolds(l);
    }
  }

  /** Diff, then apply, on trees with plain keys. The patch is applied to a copy, for the generator has sorted `from` itself. */
  lemma PlainDiffThenApply(from: Value, to: Value, caseSensitive: bool)
    requires Tame(from, PLAIN_KEYS) && Tame(to, PLAIN_KEYS)
    ensures var r := ApplyPatches(from, GeneratePatches(from, to, caseSensitive), caseSensitive);
            r.status == 0 && Denote(r.root) == Denote(to)
  {
    PlainKeysServe();
    DiffThenApply(from, from, to, PLAIN_KEYS, caseSensitive);
  }

  /** Generate a merge patch, then merge it into a copy of `from`, on trees with plain keys and no null member in `to`. */
  lemma PlainGenerateThenMerge(from: Value, to: Value, caseSensitive: bool)
    requires Tame(from, PLAIN_KEYS) && Tame(to, PLAIN_KEYS) && NullFree(Denote(to))
    ensures var r := Generate(from, to, caseSensitive);
            && (r.None? <==> from.Object? && to.Object? && Denote(from) == Denote(to))
            && (r.Some? ==> Denote(MergePatch.Merge(Some(from), r.value, caseSensitive)) == Denote(to))
  {
    PlainKeysServe();
    NullFreeIsSafe(Some(Denote(from)), Denote(to));
    GenerateThenMerge(from, from, to, PLAIN_KEYS, caseSensitive);
  }

  // ---- Which keys survive the decoder -------------------------------------------------------

  lemma Shorter(r: string, b: string, d: nat)
    requires d + 1 <= |r| && d + 1 <= |b| && r[..d + 1] == b[..d + 1]
    ensures r[..d] == b[..d] && r[d] == b[d]
  {
    assert r[..d] == r[..d + 1][..d] && b[..d] == b[..d + 1][..d];
    assert r[d] == r[..d + 1][d] && b[d] == b[..d + 1][d];
  }

  /** Decoding never changes what is already written. */
  lemma {:induction false} DecodeKeepsFront(buffer: string, d: nat, i: nat)
    requires d <= i <= |buffer|
    ensures var r := DecodeFrom(buffer, d, i); d <= |r| && r[..d] == buffer[..d]
    decreases |buffer| - i
  {
    if i < |buffer| {
      if buffer[i] != '~' {
        DecodeKeepsFront(buffer, d + 1, i + 1);
        Shorter(DecodeFrom(buffer, d + 1, i + 1), buffer, d);
      } else if i + 1 < |buffer| && buffer[i + 1] == '0' {
        var b := buffer[d := '~'];
        DecodeKeepsFront(b, d + 1, i + 2);
        Shorter(DecodeFrom(b, d + 1, i + 2), b, d);
      } else if i + 1 < |buffer| && buffer[i + 1] == '1' {
        var b := buffer[d + 1 := '/'];
        DecodeKeepsFront(b, d + 1, i + 2);
        Shorter(DecodeFrom(b, d + 1, i + 2), b, d);
      }
    }
  }

  /**
   The decoder halfway through the escaped form of `k`: `d` bytes of the key are behind it, and from
   `d` on the buffer still holds the escaped text.
   */
  ghost predicate Halfway(k: string, buffer: string, d: nat, i: nat) {
    var e := Encode(k);
    && d <= |k| && d <= i <= |e| && |buffer| == |e|
    && e[i..] == Encode(k[d..]) && buffer[d..] == e[d..]
  }

  /** One byte of the key further. */
  lemma HalfwayStep(k: string, buffer: string, d: nat, i: nat)
    requires Halfway(k, buffer, d, i) && d < |k|
    ensures i < |buffer| && d < |Encode(k)| && buffer[d] == Encode(k)[d]
    ensures k[d] != '~' && k[d] != '/' ==> buffer[i] != '~' && Halfway(k, buffer, d + 1, i + 1)
    ensures k[d] == '~' ==> buffer[i] == '~' && i + 1 < |buffer| && buffer[i + 1] == '0'
                            && Halfway(k, buffer[d := '~'], d + 1, i + 2)
    ensures k[d] == '/' ==> buffer[i] == '~' && i + 1 < |buffer| && buffer[i + 1] == '1'
  {
    var e := Encode(k);
    var tail := e[i..];
    assert k[d..][1..] == k[d + 1..];
    assert tail[0] == e[i] && e[i] == e[d..][i - d] && buffer[i] == buffer[d..][i - d];
    assert e[d] == e[d..][0] && buffer[d] == buffer[d..][0];
    assert buffer[d + 1..] == buffer[d..][1..] && e[d + 1..] == e[d..][1..];
    if k[d] == '~' || k[d] == '/' {
      assert tail == [tail[0], tail[1]] + Encode(k[d + 1..]);
      assert tail[1] == e[i + 1] && tail[2..] == e[i + 2..] && tail[2..] == Encode(k[d + 1..]);
      assert e[i + 1] == e[d..][i + 1 - d] && buffer[i + 1] == buffer[d..][i + 1 - d];
    } else {
      assert tail == [tail[0]] + Encode(k[d + 1..]);
      assert tail[1..] == e[i + 1..] && tail[1..] == Encode(k[d + 1..]);
    }
  }

  /** Without `/`, every byte but `~` comes out as the escaped text had it at that position. */
  lemma {:induction false} DecodesTo(k: string, buffer: string, d: nat, i: nat)
    requires Halfway(k, buffer, d, i) && '/' !in k
    ensures var r := DecodeFrom(buffer, d, i);
            && |r| == |k| && |Encode(k)| >= |k|
            && forall j :: d <= j < |k| ==> r[j] == if k[j] == '~' then '~' else Encode(k)[j]
    decreases |k| - d
  {
    if d < |k| {
      HalfwayStep(k, buffer, d, i);
      var b, next := if k[d] == '~' then buffer[d := '~'] else buffer, if k[d] == '~' then i + 2 else i + 1;
      DecodesTo(k, b, d + 1, next);
      DecodeKeepsFront(b, d + 1, next);
      Shorter(DecodeFrom(b, d + 1, next), b, d);
    } else {
      assert Encode(k[d..]) == [];
    }
  }

  /** The first `/` never comes out. */
  lemma {:induction false} LosesSlash(k: string, buffer: string, d: nat, i: nat)
    requires Halfway(k, buffer, d, i) && '/' in k[d..]
    ensures DecodeFrom(buffer, d, i) != k
    decreases |k| - d
  {
    HalfwayStep(k, buffer, d, i);
    assert k[d..] == [k[d]] + k[d + 1..];
    if k[d] == '/' {
      var b := buffer[d + 1 := '/'];
      DecodeKeepsFront(b, d + 1, i + 2);
      Shorter(DecodeFrom(b, d + 1, i + 2), b, d);
    } else {
      LosesSlash(k, if k[d] == '~' then buffer[d := '~'] else buffer, d + 1, if k[d] == '~' then i + 2 else i + 1);
    }
  }

  /**
   A key comes back from the escaped form exactly when it has no `/`, and each of its bytes that is
   not `~` stands in the escaped form at the very position it has in the key.
   */
  lemma SurvivesExactly(k: string)
    ensures SurvivesDecoding(k) <==>
              '/' !in k && forall j :: 0 <= j < |k| && j < |Encode(k)| && k[j] != '~' ==> Encode(k)[j] == k[j]
  {
    var e := Encode(k);
    assert e[0..] == e && k[0..] == k;
    if '/' in k { LosesSlash(k, e, 0, 0); } else { DecodesTo(k, e, 0, 0); }
  }

  // ---- The condition of the diff law is necessary -------------------------------------------

  /** The law of `DiffThenApply` for one pair of trees, the patch applied to a copy of `from`. */
  ghost predicate DiffWorks(from: Value, to: Value, caseSensitive: bool) {
    var r := ApplyPatches(from, GeneratePatches(from, to, caseSensitive), caseSensitive);
    r.status == 0 && Denote(r.root) == Denote(to)
  }

  ghost predicate DiffLaw(keys: iset<string>, caseSensitive: bool) {
    forall from, to :: Tame(from, keys) && Tame(to, keys) ==> DiffWorks(from, to, caseSensitive)
  }

  function One(k: string, item: Value): Value {
    Object([Entry(k, item)])
  }

  lemma OneDenotes(k: string, item: Value)
    ensures Denote(One(k, item)) == DObject(map[k := Denote(item)])
  {
    var members := [Entry(k, item)];
    assert members[1..] == [];
    assert DenoteMembers(members) == map[][k := Denote(item)];
  }

  /** `add` at the top of an empty object puts the decoded key in. */
  lemma AddsAtTop(k: string, caseSensitive: bool)
    ensures AddAt(Object([]), "/" + Encode(k), True, caseSensitive) == Patched(One(DecodeInPlace(Encode(k)), True), 0)
  {
    SplitsAtLast("", Encode(k));
    assert "" + "/" + Encode(k) == "/" + Encode(k);
    var child := DecodeInPlace(Encode(k));
    assert [] + [Entry(child, True)] == [Entry(child, True)];
  }

  lemma OneAddGenerated(k: string, caseSensitive: bool)
    ensures CreatePatches("", Object([]), One(k, True), caseSensitive)
         == [MakePatch("add", "/" + Encode(k), Some(True))]
  {
    var from, to := Object([]), One(k, True);
    var path := "/" + Encode(k);
    assert Sort(to.members, caseSensitive) == to.members;
    assert to.members[1..] == [];
    assert "" + "/" + Encode(k) == path;
    var patch := MakePatch("add", path, Some(True));
    assert [patch] + [] == [patch];
  }

  /** The generated `add` puts the decoded key in. */
  lemma AddsDecoded(k: string, caseSensitive: bool)
    ensures DiffWorks(Object([]), One(k, True), caseSensitive) ==> SurvivesDecoding(k)
  {
    hide CreatePatches, ApplyPatch;
    var from := Object([]);
    var path := "/" + Encode(k);
    OneAddGenerated(k, caseSensitive);
    ReadsAdd(from, path, True, caseSensitive);
    AddsAtTop(k, caseSensitive);
    OnePatch(from, MakePatch("add", path, Some(True)), caseSensitive);
    var child := DecodeInPlace(Encode(k));
    OneDenotes(child, True);
    OneDenotes(k, True);
    if child != k { assert child in map[child := DTrue] && child !in map[k := DTrue]; }
  }

  /** Ignoring case, two keys that fold alike are one key for the generator: it sees no difference. */
  lemma TwinsUnseen(k: string, l: string)
    requires Fold(k, false) == Fold(l, false) && k != l
    ensures !DiffWorks(One(l, True), One(k, True), false)
  {
    var from, to := One(l, True), One(k, True);
    CompareZero(l, k, false);
    assert from.members[1..] == [] && to.members[1..] == [];
    assert CreatePatches("", from, to, false) == [] by {
      assert Sort(to.members, false) == to.members && Sort(from.members, false) == from.members;
      SortMembers(from.members, false);
      assert from.members[0] in from.members;
      var path := "" + "/" + Encode(l);
      assert CreatePatches(path, True, True, false) == [];
      var none: seq<Value> := [];
      assert none + none == none;
      assert CreateMemberPatches("", from, [], [], false) == none;
      assert CreateMemberPatches("", from, from.members, to.members, false) == none + none;
    }
    assert ApplyAll(from, [], false) == Patched(from, 0);
    OneDenotes(k, True);
    OneDenotes(l, True);
    assert l in map[l := DTrue] && l !in map[k := DTrue];
  }

  /** Two members under keys that fold alike. */
  function Twins(l: string, k: string): Value {
    Object([Entry(l, True), Entry(k, True)])
  }

  /** The patch from both twins to the first one removes the second. */
  lemma TwinsPatch(k: string, l: string)
    requires k != l
    ensures CreatePatches("", Twins(l, k), One(l, True), true) == [MakePatch("remove", "/" + Encode(k), None)]
  {
    var from, to := Twins(l, k), One(l, True);
    var el, ek := Entry(l, True), Entry(k, True);
    var patch := MakePatch("remove", "/" + Encode(k), None);
    CompareZero(l, k, true);
    CompareZero(l, l, true);
    FoldIsIdentity(k);
    FoldIsIdentity(l);
    CompareFlips(l, k, true);
    SortTwo(el, ek);
    SortMembers(from.members, true);
    assert Sort(to.members, true) == to.members && to.members[1..] == [];
    assert "" + "/" + Encode(k) == "/" + Encode(k);
    assert CreatePatches("" + "/" + Encode(l), True, True, true) == [];
    assert [patch] + [] == [patch] && [] + [patch] == [patch];
    assert [el, ek][1..] == [ek] && [ek][1..] == [] && [ek, el][1..] == [el] && [el][1..] == [];
    assert CreateMemberPatches("", from, [], [], true) == [];
    if CompareStrings(l, k, true) < 0 {
      assert CreateMemberPatches("", from, [ek], [], true) == [patch];
    } else {
      assert CreateMemberPatches("", from, [el], [el], true) == [];
    }
  }

  lemma SortTwo(a: Entry<Value>, b: Entry<Value>)
    requires CompareStrings(a.key, b.key, true) != 0
    ensures Sort([a, b], true) == if CompareStrings(a.key, b.key, true) < 0 then [a, b] else [b, a]
  {
    var s := [a, b];
    if CompareStrings(a.key, b.key, true) > 0 {
      assert CompareKeys(s[0], s[1], true) > 0;
      assert s[..1] == [a] && s[1..] == [b];
      assert [a][1..] == [] && [b][1..] == [];
      assert KeySort.Merge([a], [b], true) == [b] + KeySort.Merge([a], [], true);
    }
  }

  /** Detaching looks the key up ignoring case, and so finds the twin that comes first. */
  lemma DetachesFirstTwin(k: string, l: string)
    requires Fold(k, false) == Fold(l, false) && SurvivesDecoding(k)
    ensures var d := DetachPath(Twins(l, k), "/" + Encode(k), true); d.Detached? && d.root == One(k, True)
  {
    var from := Twins(l, k);
    SplitsAtLast("", Encode(k));
    assert "" + "/" + Encode(k) == "/" + Encode(k);
    FirstTwinFound(k, l);
    assert GetItem(from, "", true) == Some([]);
    hide DetachChild, DecodeInPlace, Encode, SplitLast, DetachPath, WithoutChild, Twins, GetItem, Fold;
    DetachIs(from, "/" + Encode(k), "", Encode(k), 0, true);
  }

  lemma FirstTwinFound(k: string, l: string)
    requires Fold(k, false) == Fold(l, false)
    ensures DetachChild(Twins(l, k), k) == Some(0)
    ensures WithoutChild(Twins(l, k), 0) == One(k, True)
  {
    CompareZero(k, l, false);
    var members := Twins(l, k).members;
    assert IndexOf(members, k, false) == 0;
    assert Remove(members, 0) == [Entry(k, True)];
  }

  /** Case sensitive, the twin that comes first is removed in the place of the other. */
  lemma WrongTwinRemoved(k: string, l: string)
    requires Fold(k, false) == Fold(l, false) && k != l && SurvivesDecoding(k)
    ensures !DiffWorks(Twins(l, k), One(l, True), true)
  {
    var from, to := Twins(l, k), One(l, True);
    var path := "/" + Encode(k);
    TwinsPatch(k, l);
    DetachesFirstTwin(k, l);
    OneDenotes(k, True);
    OneDenotes(l, True);
    assert l in map[l := DTrue] && l !in map[k := DTrue];
    hide CreatePatches, DetachPath, Twins, One, Denote;
    ReadsRemove(from, path, true);
    OnePatch(from, MakePatch("remove", path, None), true);
  }

  lemma SmallTreesAreTame(k: string, l: string, keys: iset<string>)
    requires k in keys && l in keys
    ensures Tame(Object([]), keys) && Tame(One(k, True), keys)
    ensures k != l ==> Tame(Twins(l, k), keys)
  {
    assert TameMembers([Entry(k, True)], keys);
    if k != l { assert TameMembers([Entry(l, True), Entry(k, True)], keys); }
  }

  /** Diff, then apply, works on all trees over a vocabulary exactly when patch paths can address it. */
  lemma DiffLawExactly(keys: iset<string>, caseSensitive: bool)
    ensures DiffLaw(keys, caseSensitive) <==> Addressable(keys)
  {
    if Addressable(keys) {
      forall from, to | Tame(from, keys) && Tame(to, keys) ensures DiffWorks(from, to, caseSensitive) {
        DiffThenApply(from, from, to, keys, caseSensitive);
      }
    }
    hide DiffWorks, Tame;
    if DiffLaw(keys, caseSensitive) {
      forall k | k in keys ensures SurvivesDecoding(k) {
        SmallTreesAreTame(k, k, keys);
        AddsDecoded(k, caseSensitive);
      }
      forall k, l | k in keys && l in keys && Fold(k, false) == Fold(l, false) ensures k == l {
        if k != l {
          SmallTreesAreTame(k, l, keys);
          SmallTreesAreTame(l, k, keys);
          if caseSensitive { WrongTwinRemoved(k, l); } else { TwinsUnseen(k, l); }
        }
      }
    }
  }

  // ---- The condition of the merge law is necessary ------------------------------------------

  /** The law of `GenerateThenMerge` for one pair of trees, the patch merged into a copy of `from`. */
  ghost predicate MergeWorks(from: Value, to: Value, caseSensitive: bool) {
    var r := Generate(from, to, caseSensitive);
    && (r.None? <==> from.Object? && to.Object? && Denote(from) == Denote(to))
    && (r.Some? ==>
          (Denote(MergePatch.Merge(Some(from), r.value, caseSensitive)) == Denote(to)
           <==> NullSafe(Some(Denote(from)), Denote(to))))
  }

  ghost predicate MergeLaw(keys: iset<string>, caseSensitive: bool) {
    forall from, to :: Tame(from, keys) && Tame(to, keys) ==> MergeWorks(from, to, caseSensitive)
  }

  /** Two keys that sort one way ignoring case and the other way by `strcmp`. */
  predicate Crossed(a: string, b: string) {
    CompareStrings(a, b, false) <= 0 && CompareStrings(a, b, true) > 0
  }

  /** There are such keys. */
  lemma CrossedExists()
    ensures Crossed("a", "B")
  {
    assert "a"[1..] == [] && "B"[1..] == [];
  }

  lemma CrossedSort(a: string, b: string)
    requires Crossed(a, b)
    ensures Sort([Entry(b, True), Entry(a, True)], false) == [Entry(a, True), Entry(b, True)]
  {
    var ea, eb := Entry(a, True), Entry(b, True);
    var s := [eb, ea];
    CompareFlips(a, b, false);
    assert CompareKeys(s[0], s[1], false) >= 0;
    assert s[..1] == [eb] && s[1..] == [ea];
    assert [eb][1..] == [] && [ea][1..] == [];
    assert KeySort.Merge([eb], [ea], false) == [ea] + KeySort.Merge([eb], [], false);
  }

  /** The patch the walk makes of crossed keys: it sets `b` and then removes both. */
  function CrossedPatch(a: string, b: string): Value {
    Object([Entry(b, True), Entry(a, Null), Entry(b, Null)])
  }

  lemma CrossedGenerates(a: string, b: string)
    requires Crossed(a, b)
    ensures Generate(Twins(b, a), One(b, True), false) == Some(CrossedPatch(a, b))
  {
    var from, to := Twins(b, a), One(b, True);
    var ea, eb := Entry(a, True), Entry(b, True);
    CrossedSort(a, b);
    assert Sort(to.members, false) == [eb];
    assert forall e :: e in [ea, eb] ==> e in from.members by {
      assert from.members[0] == eb && from.members[1] == ea;
    }
    assert [eb][1..] == [] && [ea, eb][1..] == [eb];
    var none: Members := [];
    assert GenerateMembers(from, [], [], false) == none;
    assert GenerateMembers(from, [eb], [], false) == [Entry(b, Null)];
    assert GenerateMembers(from, [ea, eb], [], false) == [Entry(a, Null), Entry(b, Null)];
    assert GenerateMembers(from, [ea, eb], [eb], false) == CrossedPatch(a, b).members;
  }

  /** Removing the name of the first member removes the first member. */
  lemma FirstGone(e: Entry<Value>, rest: Members, caseSensitive: bool)
    ensures WithoutMember([e] + rest, e.key, caseSensitive) == rest
  {
    CompareZero(e.key, e.key, caseSensitive);
    assert ([e] + rest)[1..] == rest;
  }

  /** One null member of the patch. */
  lemma NullRemoves(e: Entry<Value>, rest: Members, whole: Value, patch: Members, later: Members, caseSensitive: bool)
    requires whole.Object? && forall p :: p in patch ==> p in whole.members
    requires patch == [Entry(e.key, Null)] + later
    ensures forall p :: p in later ==> p in whole.members
    ensures MergeMembers([e] + rest, whole, patch, caseSensitive) == MergeMembers(rest, whole, later, caseSensitive)
  {
    FirstGone(e, rest, caseSensitive);
    assert patch[1..] == later && patch[0] == Entry(e.key, Null);
    hide WithoutMember;
  }

  /** One member of the patch that is not null, for the first member of the target. */
  lemma ScalarMoves(e: Entry<Value>, rest: Members, whole: Value, patch: Members, later: Members, caseSensitive: bool)
    requires whole.Object? && forall p :: p in patch ==> p in whole.members
    requires patch == [Entry(e.key, True)] + later
    ensures forall p :: p in later ==> p in whole.members
    ensures MergeMembers([e] + rest, whole, patch, caseSensitive)
         == MergeMembers(rest + [Entry(e.key, True)], whole, later, caseSensitive)
  {
    FirstGone(e, rest, caseSensitive);
    assert patch[1..] == later && patch[0] == Entry(e.key, True);
    hide WithoutMember, IndexOf;
  }

  lemma CrossedSteps(ea: Entry<Value>, eb: Entry<Value>, p: Value, lastTwo: Members, last: Members, caseSensitive: bool)
    requires p.Object? && ea.item == True && eb.item == True
    requires last == [Entry(eb.key, Null)] && lastTwo == [Entry(ea.key, Null)] + last
    requires p.members == [Entry(eb.key, True)] + lastTwo
    ensures MergeMembers([eb] + [ea], p, p.members, caseSensitive) == []
  {
    hide *;
    var none: Members := [];
    assert [eb] + none == [eb] && [Entry(eb.key, Null)] + none == last;
    ScalarMoves(eb, [ea], p, p.members, lastTwo, caseSensitive);
    NullRemoves(ea, [eb], p, lastTwo, last, caseSensitive);
    NullRemoves(eb, none, p, last, none, caseSensitive);
    NothingMerged(p, caseSensitive);
  }

  /** Merging that patch in removes both members. */
  lemma CrossedMerges(a: string, b: string, caseSensitive: bool)
    ensures MergePatch.Merge(Some(Twins(b, a)), CrossedPatch(a, b), caseSensitive) == Object([])
  {
    var p := CrossedPatch(a, b);
    var ea, eb := Entry(a, True), Entry(b, True);
    var last: Members := [Entry(b, Null)];
    CrossedSteps(ea, eb, p, [Entry(a, Null)] + last, last, caseSensitive);
    assert Twins(b, a).members == [eb] + [ea];
    hide MergeMembers;
  }

  lemma NothingMerged(whole: Value, caseSensitive: bool)
    requires whole.Object?
    ensures MergeMembers([], whole, [], caseSensitive) == []
  {}

  lemma {:induction false} InStepSameLength(whole: Value, s: Members, t: Members, caseSensitive: bool)
    requires whole.Object? && forall e :: e in s ==> e in whole.members
    requires CompareInStep(whole, s, t, caseSensitive)
    ensures |s| == |t|
  {
    if s != [] && t != [] {
      assert s[0] in whole.members;
      InStepSameLength(whole, s[1..], t[1..], caseSensitive);
    }
  }

  /** Below a common member, whatever the caller asked for, the walk meets the crossed keys. */
  lemma CrossedFails(a: string, b: string, caseSensitive: bool)
    requires Crossed(a, b)
    ensures !MergeWorks(One(a, Twins(b, a)), One(a, One(b, True)), caseSensitive)
  {
    var f, t := Twins(b, a), One(b, True);
    var from, to := One(a, f), One(a, t);
    CrossedDiffer(a, b, caseSensitive);
    CrossedGenerates(a, b);
    CrossedMerges(a, b, caseSensitive);
    SingleGenerates(a, f, t, CrossedPatch(a, b), caseSensitive);
    SingleMerges(a, f, CrossedPatch(a, b), caseSensitive);
    CrossedDenotes(a, b);
  }

  lemma CrossedDiffer(a: string, b: string, caseSensitive: bool)
    ensures !CompareJson(Twins(b, a), One(b, True), caseSensitive)
  {
    var f, t := Twins(b, a), One(b, True);
    var s := Sort(f.members, caseSensitive);
    SortedFrom(f.members, s, caseSensitive);
    if CompareInStep(f, s, Sort(t.members, caseSensitive), caseSensitive) {
      InStepSameLength(f, s, Sort(t.members, caseSensitive), caseSensitive);
    }
  }

  /** The generator on two objects with one common member that differs. */
  lemma SingleGenerates(a: string, f: Value, t: Value, change: Value, caseSensitive: bool)
    requires !CompareJson(f, t, caseSensitive) && Generate(f, t, false) == Some(change)
    ensures Generate(One(a, f), One(a, t), caseSensitive) == Some(One(a, change))
  {
    var from, to := One(a, f), One(a, t);
    CompareZero(a, a, true);
    assert from.members[1..] == [] && to.members[1..] == [];
    assert from.members[0] in from.members;
    var none: Members := [];
    assert GenerateMembers(from, [], [], caseSensitive) == none;
    assert [Entry(a, change)] + none == [Entry(a, change)];
    assert Sort(from.members, caseSensitive) == from.members && Sort(to.members, caseSensitive) == to.members;
    hide Sort, CompareJson, Generate;
    assert GenerateMembers(from, from.members, to.members, caseSensitive) == [Entry(a, change)];
  }

  /** Merging a patch with one member, not null, into an object with that member. */
  lemma SingleMerges(a: string, f: Value, change: Value, caseSensitive: bool)
    requires !change.Null?
    ensures MergePatch.Merge(Some(One(a, f)), One(a, change), caseSensitive)
         == One(a, MergePatch.Merge(Some(f), change, caseSensitive))
  {
    var p := One(a, change);
    var e := Entry(a, f);
    var none: Members := [];
    FirstGone(e, none, caseSensitive);
    assert [e] + none == [e] && p.members[1..] == none;
    CompareZero(a, a, caseSensitive);
    assert IndexOf([e], a, caseSensitive) == 0;
    assert p.members[0] in p.members;
    var merged := Entry(a, MergePatch.Merge(Some(f), change, caseSensitive));
    assert none + [merged] == [merged];
    hide WithoutMember, IndexOf;
    assert MergeMembers([merged], p, none, caseSensitive) == [merged];
    assert MergeMembers([e], p, p.members, caseSensitive) == [merged];
  }

  lemma CrossedDenotes(a: string, b: string)
    ensures Denote(One(a, Object([]))) != Denote(One(a, One(b, True)))
    ensures a != b ==> NullSafe(Some(Denote(One(a, Twins(b, a)))), Denote(One(a, One(b, True))))
  {
    OneDenotes(a, Object([]));
    OneDenotes(a, One(b, True));
    OneDenotes(b, True);
    OneDenotes(a, Twins(b, a));
    var empty, t, f := Denote(Object([])), Denote(One(b, True)), Denote(Twins(b, a));
    assert b in t.members && b !in empty.members;
    var m, n := map[a := empty], map[a := t];
    assert m[a] != n[a];
    if a != b {
      var members := [Entry(b, True), Entry(a, True)];
      DenoteMembersFirst(members, 0);
      assert b in f.members && f.members[b] == DTrue;
      assert NullSafe(Some(f), t);
    }
  }

  /** Generate, then merge, works on all trees over a vocabulary exactly when it sorts alike with and without case. */
  lemma MergeLawExactly(keys: iset<string>, caseSensitive: bool)
    ensures MergeLaw(keys, caseSensitive) <==> SameOrder(keys)
  {
    if SameOrder(keys) {
      forall from, to | Tame(from, keys) && Tame(to, keys) ensures MergeWorks(from, to, caseSensitive) {
        GenerateThenMerge(from, from, to, keys, caseSensitive);
      }
    }
    hide MergeWorks, Tame;
    if MergeLaw(keys, caseSensitive) {
      forall k, l | k in keys && l in keys ensures CompareStrings(k, l, false) == CompareStrings(k, l, true) {
        NotCrossed(k, l, keys, caseSensitive);
        NotCrossed(l, k, keys, caseSensitive);
        CompareFlips(k, l, false);
        CompareFlips(k, l, true);
        SameKey(k, l);
      }
    }
  }

  lemma NotCrossed(a: string, b: string, keys: iset<string>, caseSensitive: bool)
    requires a in keys && b in keys && MergeLaw(keys, caseSensitive)
    ensures !Crossed(a, b)
  {
    if Crossed(a, b) {
      CrossedTame(a, b, keys);
      hide Denote, MergeWorks, Tame;
      CrossedFails(a, b, caseSensitive);
    }
  }

  lemma CrossedTame(a: string, b: string, keys: iset<string>)
    requires a in keys && b in keys && Crossed(a, b)
    ensures Tame(One(a, Twins(b, a)), keys) && Tame(One(a, One(b, True)), keys)
  {
    CompareZero(a, a, true);
    SmallTreesAreTame(a, b, keys);
    SmallTreesAreTame(b, a, keys);
    hide Crossed;
  }

  lemma SameKey(k: string, l: string)
    ensures CompareStrings(k, l, true) == 0 ==> CompareStrings(k, l, false) == 0
    ensures CompareStrings(k, l, true) in {-1, 0, 1} && CompareStrings(k, l, false) in {-1, 0, 1}
  {
    CompareZero(k, l, true);
    FoldIsIdentity(k);
    FoldIsIdentity(l);
    CompareZero(k, l, false);
    ThreeWay(k, l, true);
    ThreeWay(k, l, false);
  }

  lemma {:induction false} ThreeWay(k: string, l: string, caseSensitive: bool)
    ensures -1 <= CompareStrings(k, l, caseSensitive) <= 1
  {
    if k != [] && l != [] { ThreeWay(k[1..], l[1..], caseSensitive); }
  }

  // ---- Array indices against the standard ---------------------------------------------------

  /** `array-index` of RFC 6901 section 4: no sign, no leading zero, digits only. */
  predicate IsArrayIndex(t: string) {
    t != [] && AllDigits(t) && (t[0] == '0' ==> |t| == 1)
  }

  function RfcIndex(t: string): Option<nat> {
    if IsArrayIndex(t) then Some(Accumulate(t, 0)) else None
  }

  predicate NoneBelowZero(t: string) {
    forall i :: 0 <= i < |t| ==> t[i] >= '0'
  }

  /** The digit loop takes every character from '0' on, and nothing else. */
  lemma {:induction false} LoopAccepts(t: string, first: char, index: nat)
    requires '/' !in t && first <= '9'
    ensures DecodeDigits(t, first, index).Some? <==> NoneBelowZero(t)
    decreases |t|
  {
    if t != [] && t[0] >= '0' {
      LoopAccepts(t[1..], first, (10 * index + DigitValue(t[0])) % SIZE_LIMIT);
      assert NoneBelowZero(t) <==> NoneBelowZero(t[1..]) by {
        assert forall i :: 0 <= i < |t[1..]| ==> t[1..][i] == t[i + 1];
        assert forall i :: 0 < i < |t| ==> t[i] == t[1..][i - 1];
      }
    }
  }

  lemma WrapsStepwise(acc: nat, d: nat)
    ensures (10 * (acc % SIZE_LIMIT) + d) % SIZE_LIMIT == (10 * acc + d) % SIZE_LIMIT
  {
    var q, r := acc / SIZE_LIMIT, acc % SIZE_LIMIT;
    assert 10 * acc + d == SIZE_LIMIT * (10 * q) + (10 * r + d);
    SameRemainder(10 * r + d, 10 * q);
  }

  lemma {:induction false} SameRemainder(x: nat, k: nat)
    ensures (SIZE_LIMIT * k + x) % SIZE_LIMIT == x % SIZE_LIMIT
    decreases k
  {
    if k > 0 { SameRemainder(x, k - 1); }
  }

  /** On digits the loop computes the number, wrapped like a `size_t`. */
  lemma {:induction false} LoopWraps(t: string, first: char, acc: nat)
    requires AllDigits(t) && first <= '9'
    ensures DecodeDigits(t, first, acc % SIZE_LIMIT) == Some(Accumulate(t, acc) % SIZE_LIMIT)
    decreases |t|
  {
    if t != [] {
      LoopWraps(t[1..], first, 10 * acc + DigitValue(t[0]));
      WrapsStepwise(acc, DigitValue(t[0]));
    }
  }

  /**
   The decoder agrees with the standard on a token exactly when the token is not empty, does not go
   on past its digits with characters that sort behind '9', and does not overflow a `size_t`.
   */
  lemma IndexDecodedExactly(t: string)
    requires '/' !in t
    ensures DecodeIndex(t) == RfcIndex(t) <==>
              && t != ""
              && !('1' <= t[0] <= '9' && NoneBelowZero(t) && !AllDigits(t))
              && (IsArrayIndex(t) ==> Accumulate(t, 0) < SIZE_LIMIT)
  {
    if t != [] && t[0] <= '9' {
      LoopAccepts(t, t[0], 0);
      if AllDigits(t) {
        LoopWraps(t, t[0], 0);
        var n := Accumulate(t, 0);
        assert n < SIZE_LIMIT <==> n % SIZE_LIMIT == n;
      }
    }
  }
}

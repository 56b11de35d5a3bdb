/**
 The iniparser dictionary: parallel arrays of keys, values and cached hashes, with holes where keys
 were deleted, doubling when full.
 */
module Dictionary {
  import opened CString

  const MINIMAL_SIZE: nat := 128

  /** `(unsigned) key[i]`, where plain `char` is signed and a byte above 127 is sign-extended. */
  function ByteCode(c: char): (n: int)
    ensures 0 <= n < 0x1_0000_0000
  {
    var b := c as int % 256;
    if b < 128 then b else 0x1_0000_0000 - 256 + b
  }

  function Widen(c: char): bv32 {
    ByteCode(c) as bv32
  }

  function Mix(hash: bv32, c: char): bv32 {
    var h := hash + Widen(c);
    var h := h + (h << 10);
    h ^ (h >> 6)
  }

  function MixAll(s: string): bv32 {
    if s == [] then 0 else Mix(MixAll(s[..|s| - 1]), s[|s| - 1])
  }

  function Finish(hash: bv32): bv32 {
    var h := hash + (hash << 3);
    var h := h ^ (h >> 11);
    h + (h << 15)
  }

  /** The hash of a key as a function of its bytes. */
  function Hash(key: string): bv32 {
    Finish(MixAll(key))
  }

  /** `dictionary_hash`. */
  method ComputeHash(key: string) returns (hash: bv32)
    ensures hash == Hash(key)
  {
    hash := 0;
    for i := 0 to |key|
      invariant hash == MixAll(key[..i])
    {
      MixNext(key, i);
      hash := Mix(hash, key[i]);
    }
    assert key[..|key|] == key;
    hash := Finish(hash);
  }

  lemma MixNext(key: string, i: nat)
    requires i < |key|
    ensures MixAll(key[..i + 1]) == Mix(MixAll(key[..i]), key[i])
  {
    assert key[..i + 1][..i] == key[..i];
  }

  // ---- Slots --------------------------------------------------------------------------------

  type Slots = seq<Option<string>>

  function Occupied(keys: Slots): (r: nat)
    ensures r <= |keys|
  {
    if keys == [] then 0
    else Occupied(keys[..|keys| - 1]) + if keys[|keys| - 1].Some? then 1 else 0
  }

  /** Fewer keys than slots leave a free slot. */
  lemma {:induction false} FreeSlotExists(keys: Slots)
    requires Occupied(keys) < |keys|
    ensures exists i :: 0 <= i < |keys| && keys[i].None?
  {
    if keys[|keys| - 1].Some? {
      FreeSlotExists(keys[..|keys| - 1]);
      var i :| 0 <= i < |keys| - 1 && keys[..|keys| - 1][i].None?;
      assert keys[i].None?;
    }
  }

  lemma {:induction false} OccupiedUpdate(keys: Slots, i: nat, k: Option<string>)
    requires i < |keys|
    ensures Occupied(keys[i := k]) == Occupied(keys) - (if keys[i].Some? then 1 else 0) + (if k.Some? then 1 else 0)
  {
    var last := |keys| - 1;
    if i < last {
      OccupiedUpdate(keys[..last], i, k);
      assert keys[i := k][..last] == keys[..last][i := k];
    } else {
      assert keys[i := k][..last] == keys[..last];
    }
  }

  lemma {:induction false} OccupiedEmptyTail(keys: Slots, more: Slots)
    requires forall i :: 0 <= i < |more| ==> more[i].None?
    ensures Occupied(keys + more) == Occupied(keys)
  {
    if more == [] {
      assert keys + more == keys;
    } else {
      var last := |more| - 1;
      assert (keys + more)[..|keys + more| - 1] == keys + more[..last];
      OccupiedEmptyTail(keys, more[..last]);
    }
  }

  ghost predicate DistinctSlots(keys: Slots) {
    forall i, j :: 0 <= i < j < |keys| && keys[i].Some? && keys[j].Some? ==> keys[i] != keys[j]
  }

  /** The map the slots stand for. */
  ghost function Contents(keys: Slots, vals: Slots): map<string, Option<string>>
    requires |keys| == |vals| && DistinctSlots(keys)
  {
    map i | 0 <= i < |keys| && keys[i].Some? :: keys[i].value := vals[i]
  }

  lemma {:induction false} ContentsAt(keys: Slots, vals: Slots)
    requires |keys| == |vals| && DistinctSlots(keys)
    ensures forall i :: 0 <= i < |keys| && keys[i].Some? ==>
              keys[i].value in Contents(keys, vals) && Contents(keys, vals)[keys[i].value] == vals[i]
    ensures forall k :: k in Contents(keys, vals) <==> Some(k) in keys
  {
    forall k ensures k in Contents(keys, vals) <==> Some(k) in keys {
      if Some(k) in keys {
        var i :| 0 <= i < |keys| && keys[i] == Some(k);
        assert keys[i].value in Contents(keys, vals);
      }
    }
  }

  /** A map that agrees with every occupied slot, and has no other key, is the contents. */
  lemma {:induction false} ContentsIs(keys: Slots, vals: Slots, m: map<string, Option<string>>)
    requires |keys| == |vals| && DistinctSlots(keys)
    requires forall i :: 0 <= i < |keys| && keys[i].Some? ==> keys[i].value in m && m[keys[i].value] == vals[i]
    requires forall k <- m.Keys :: Some(k) in keys
    ensures Contents(keys, vals) == m
  {
    ContentsAt(keys, vals);
    var c := Contents(keys, vals);
    forall k | k in c ensures k in m && c[k] == m[k] {
      var i :| 0 <= i < |keys| && keys[i] == Some(k);
    }
    assert c.Keys == m.Keys;
  }

  /** Overwriting the value of an occupied slot sets its key. */
  lemma {:induction false} ContentsSetValue(keys: Slots, vals: Slots, i: nat, v: Option<string>)
    requires |keys| == |vals| && DistinctSlots(keys) && i < |keys| && keys[i].Some?
    ensures Contents(keys, vals[i := v]) == Contents(keys, vals)[keys[i].value := v]
  {
    ContentsAt(keys, vals);
    assert forall j :: 0 <= j < |keys| && j != i && keys[j].Some? ==> keys[j] != keys[i];
    ContentsIs(keys, vals[i := v], Contents(keys, vals)[keys[i].value := v]);
  }

  lemma {:induction false} InUpdated(keys: Slots, i: nat, x: Option<string>, y: Option<string>)
    requires i < |keys| && y in keys && y != keys[i]
    ensures y in keys[i := x]
  {
    var j :| 0 <= j < |keys| && keys[j] == y;
    assert keys[i := x][j] == y;
  }

  /** Filling a free slot with a new key sets it. */
  lemma {:induction false} ContentsFill(keys: Slots, vals: Slots, i: nat, k: string, v: Option<string>)
    requires |keys| == |vals| && DistinctSlots(keys) && i < |keys| && keys[i].None? && Some(k) !in keys
    ensures DistinctSlots(keys[i := Some(k)])
    ensures Contents(keys[i := Some(k)], vals[i := v]) == Contents(keys, vals)[k := v]
  {
    ContentsAt(keys, vals);
    var m := Contents(keys, vals)[k := v];
    assert keys[i := Some(k)][i] == Some(k);
    forall l | l in m.Keys ensures Some(l) in keys[i := Some(k)] {
      if l != k { InUpdated(keys, i, Some(k), Some(l)); }
    }
    ContentsIs(keys[i := Some(k)], vals[i := v], m);
  }

  /** Emptying an occupied slot removes its key. */
  lemma {:induction false} ContentsClear(keys: Slots, vals: Slots, i: nat)
    requires |keys| == |vals| && DistinctSlots(keys) && i < |keys| && keys[i].Some?
    ensures DistinctSlots(keys[i := None])
    ensures Contents(keys[i := None], vals[i := None]) == Contents(keys, vals) - {keys[i].value}
  {
    ContentsAt(keys, vals);
    hide Contents;
    var m := Contents(keys, vals) - {keys[i].value};
    assert forall j :: 0 <= j < |keys| && j != i && keys[j].Some? ==> keys[j] != keys[i];
    forall l | l in m.Keys ensures Some(l) in keys[i := None] {
      InUpdated(keys, i, None, Some(l));
    }
    ContentsIs(keys[i := None], vals[i := None], m);
  }

  /** Empty slots behind the others add nothing. */
  lemma {:induction false} ContentsEmptyTail(keys: Slots, vals: Slots, moreKeys: Slots, moreVals: Slots)
    requires |keys| == |vals| && DistinctSlots(keys) && |moreKeys| == |moreVals|
    requires forall i :: 0 <= i < |moreKeys| ==> moreKeys[i].None?
    ensures DistinctSlots(keys + moreKeys)
    ensures Contents(keys + moreKeys, vals + moreVals) == Contents(keys, vals)
  {
    ContentsAt(keys, vals);
    forall i | 0 <= i < |keys + moreKeys| && (keys + moreKeys)[i].Some?
      ensures i < |keys| && (keys + moreKeys)[i] == keys[i] && (vals + moreVals)[i] == vals[i]
    {}
    ContentsIs(keys + moreKeys, vals + moreVals, Contents(keys, vals));
  }

  /** Keys are distinct, `n` counts them, and each occupied slot caches the hash of its key. */
  ghost predicate Sound(keys: Slots, hashes: seq<bv32>, n: nat) {
    && |keys| == |hashes|
    && DistinctSlots(keys)
    && n == Occupied(keys)
    && forall i :: 0 <= i < |keys| && keys[i].Some? ==> hashes[i] == Hash(keys[i].value)
  }

  lemma {:induction false} FillSound(keys: Slots, hashes: seq<bv32>, n: nat, i: nat, k: string)
    requires Sound(keys, hashes, n) && i < |keys| && keys[i].None? && Some(k) !in keys
    ensures Sound(keys[i := Some(k)], hashes[i := Hash(k)], n + 1)
  {
    OccupiedUpdate(keys, i, Some(k));
  }

  lemma {:induction false} ClearSound(keys: Slots, hashes: seq<bv32>, n: nat, i: nat)
    requires Sound(keys, hashes, n) && i < |keys| && keys[i].Some?
    ensures n > 0 && Sound(keys[i := None], hashes[i := 0], n - 1)
  {
    OccupiedUpdate(keys, i, None);
  }

  lemma {:induction false} GrowSound(keys: Slots, hashes: seq<bv32>, n: nat, moreKeys: Slots, moreHashes: seq<bv32>)
    requires Sound(keys, hashes, n) && |moreKeys| == |moreHashes|
    requires forall i :: 0 <= i < |moreKeys| ==> moreKeys[i].None?
    ensures Sound(keys + moreKeys, hashes + moreHashes, n)
  {
    OccupiedEmptyTail(keys, moreKeys);
    forall i | 0 <= i < |keys + moreKeys| && (keys + moreKeys)[i].Some?
      ensures (hashes + moreHashes)[i] == Hash((keys + moreKeys)[i].value)
    {
      assert (keys + moreKeys)[i] == keys[i];
    }
  }

  lemma {:induction false} AllFree(keys: Slots, vals: Slots, hashes: seq<bv32>)
    requires |keys| == |vals| == |hashes| && forall i :: 0 <= i < |keys| ==> keys[i].None?
    ensures Sound(keys, hashes, 0) && Contents(keys, vals) == map[]
  {
    OccupiedEmptyTail([], keys);
    assert [] + keys == keys;
  }

  // ---- The dictionary -----------------------------------------------------------------------

  class Dictionary {
    var n: nat
    var size: nat
    var val: array<Option<string>>
    var key: array<Option<string>>
    var hash: array<bv32>

    ghost predicate Valid()
      reads this, val, key, hash
    {
      && key != val && key as object != hash && val as object != hash
      && key.Length == val.Length == hash.Length == size > 0
      && Sound(key[..], hash[..], n)
    }

    /** The map from keys to values, a value being possibly NULL. */
    ghost function View(): map<string, Option<string>>
      reads this, val, key, hash
      requires Valid()
    {
      Contents(key[..], val[..])
    }

    /** `dictionary_new`. */
    constructor (wanted: nat)
      ensures Valid() && View() == map[]
      ensures size == if wanted < MINIMAL_SIZE then MINIMAL_SIZE else wanted
      ensures fresh(val) && fresh(key) && fresh(hash)
    {
      var s := if wanted < MINIMAL_SIZE then MINIMAL_SIZE else wanted;
      n := 0;
      size := s;
      val := new Option<string>[s](_ => None);
      key := new Option<string>[s](_ => None);
      hash := new bv32[s](_ => 0);
      new;
      AllFree(key[..], val[..], hash[..]);
    }

    /** The scan of `dictionary_get`, `_set` and `_unset`: the hash test never changes the outcome. */
    method FindSlot(k: string) returns (i: nat)
      requires Valid()
      ensures i <= size
      ensures i < size ==> key[i] == Some(k)
      ensures i == size ==> Some(k) !in key[..]
      ensures i < size <==> k in View()
      ensures i < size ==> View()[k] == val[i]
    {
      var h := ComputeHash(k);
      i := 0;
      while i < size
        invariant 0 <= i <= size
        invariant forall j :: 0 <= j < i ==> key[j] != Some(k)
      {
        if key[i].Some? && h == hash[i] && k == key[i].value {
          break;
        }
        i := i + 1;
      }
      ContentsAt(key[..], val[..]);
      if i < size { assert key[..][i] == Some(k); }
    }

    /** `dictionary_get`. */
    method Get(k: string, default: Option<string>) returns (v: Option<string>)
      requires Valid()
      ensures v == if k in View() then View()[k] else default
    {
      var i := FindSlot(k);
      v := if i < size then val[i] else default;
    }

    /** `dictionary_grow`. */
    method Grow()
      requires Valid()
      modifies this
      ensures Valid() && View() == old(View())
      ensures size == 2 * old(size) && n == old(n)
      ensures fresh(val) && fresh(key) && fresh(hash)
    {
      ghost var keys, vals, hashes := key[..], val[..], hash[..];
      var newVal := MemDouble(val, None);
      var newKey := MemDouble(key, None);
      var newHash := MemDouble(hash, 0);
      ghost var moreKeys, moreVals, moreHashes := newKey[size..], newVal[size..], newHash[size..];
      ContentsEmptyTail(keys, vals, moreKeys, moreVals);
      GrowSound(keys, hashes, n, moreKeys, moreHashes);
      hide Contents, Sound, DistinctSlots;
      assert newKey[..] == keys + moreKeys && newVal[..] == vals + moreVals && newHash[..] == hashes + moreHashes;
      size := 2 * size;
      val := newVal;
      key := newKey;
      hash := newHash;
    }

    /**
     The search for a free slot, from `n` on and around the end: holes left by deletion may be
     anywhere, but there is one, and the cyclic distance to it shrinks.
     */
    method FindFree() returns (i: nat)
      requires Valid() && n < size
      ensures i < size && key[i].None?
    {
      FreeSlotExists(key[..]);
      ghost var free: nat :| free < size && key[..][free].None?;
      i := n;
      while key[i].Some?
        invariant 0 <= i < size
        decreases if i <= free then free - i else free + size - i
      {
        i := i + 1;
        if i == size {
          i := 0;
        }
      }
    }

    /** `dictionary_set`. */
    method Set(k: Option<string>, v: Option<string>) returns (status: int)
      requires Valid()
      modifies this, val, key, hash
      ensures Valid()
      ensures status == if k.Some? then 0 else -1
      ensures View() == if k.Some? then old(View())[k.value := v] else old(View())
      ensures val == old(val) || fresh(val)
      ensures key == old(key) || fresh(key)
      ensures hash == old(hash) || fresh(hash)
    {
      if k.None? {
        return -1;
      }
      if n > 0 {
        var i := FindSlot(k.value);
        if i < size {
          ContentsSetValue(key[..], val[..], i, v);
          val[i] := v;
          assert val[..] == old(val[..])[i := v];
          return 0;
        }
      } else {
        NoKeys(key[..], k.value);
        ContentsAt(key[..], val[..]);
      }
      if n == size {
        Grow();
      }
      Fill(k.value, v);
      return 0;
    }

    /** The end of `dictionary_set`: a new key goes into a free slot. */
    method Fill(k: string, v: Option<string>)
      requires Valid() && n < size && k !in View()
      modifies this, val, key, hash
      ensures Valid() && View() == old(View())[k := v]
      ensures val == old(val) && key == old(key) && hash == old(hash)
    {
      var i := FindFree();
      var h := ComputeHash(k);
      ghost var keys, vals, hashes := key[..], val[..], hash[..];
      ContentsAt(keys, vals);
      ContentsFill(keys, vals, i, k, v);
      FillSound(keys, hashes, n, i, k);
      key[i] := Some(k);
      val[i] := v;
      hash[i] := h;
      n := n + 1;
      assert key[..] == keys[i := Some(k)] && val[..] == vals[i := v] && hash[..] == hashes[i := h];
    }

    /** `dictionary_unset`. */
    method Unset(k: Option<string>)
      requires Valid()
      modifies this, val, key, hash
      ensures Valid()
      ensures View() == if k.Some? then old(View()) - {k.value} else old(View())
      ensures size == old(size) && val == old(val) && key == old(key) && hash == old(hash)
    {
      hide Contents, Sound, DistinctSlots, Occupied, Hash;
      if k.None? {
        return;
      }
      var i := FindSlot(k.value);
      NothingToRemove(View(), k.value);
      if i >= size {
        return;
      }
      ghost var keys, vals, hashes := key[..], val[..], hash[..];
      CanClear(keys, vals, hashes, n, i);
      ClearSlot(i);
      n := n - 1;
    }

    /** The three entries of a slot are reset. */
    method ClearSlot(i: nat)
      requires key.Length == val.Length == hash.Length && i < key.Length
      requires key != val && key as object != hash && val as object != hash
      modifies val, key, hash
      ensures key[..] == old(key[..])[i := None]
      ensures val[..] == old(val[..])[i := None]
      ensures hash[..] == old(hash[..])[i := 0]
    {
      key[i] := None;
      val[i] := None;
      hash[i] := 0;
    }
  }

  lemma NothingToRemove<K, V>(m: map<K, V>, k: K)
    ensures k !in m ==> m - {k} == m
  {}

  lemma CanClear(keys: Slots, vals: Slots, hashes: seq<bv32>, n: nat, i: nat)
    requires |keys| == |vals| && Sound(keys, hashes, n) && i < |keys| && keys[i].Some?
    ensures n > 0 && Sound(keys[i := None], hashes[i := 0], n - 1)
    ensures Contents(keys[i := None], vals[i := None]) == Contents(keys, vals) - {keys[i].value}
  {
    ContentsClear(keys, vals, i);
    ClearSound(keys, hashes, n, i);
  }

  /** `calloc` and `memcpy`: a cleared block of twice the size, with a copy of the old one in front. */
  method MemDouble<T>(a: array<T>, zero: T) returns (b: array<T>)
    ensures fresh(b) && b.Length == 2 * a.Length
    ensures b[..a.Length] == a[..]
    ensures forall i :: a.Length <= i < b.Length ==> b[i] == zero
  {
    b := new T[2 * a.Length](_ => zero);
    forall i | 0 <= i < a.Length { b[i] := a[i]; }
  }

  lemma {:induction false} NoKeys(keys: Slots, k: string)
    requires Occupied(keys) == 0
    ensures Some(k) !in keys
  {
    if keys != [] {
      NoKeys(keys[..|keys| - 1], k);
      assert keys == keys[..|keys| - 1] + [keys[|keys| - 1]];
    }
  }

  // ---- Whole runs ---------------------------------------------------------------------------

  datatype Call = CallGet(key: string, default: Option<string>) | CallSet(k: Option<string>, v: Option<string>) | CallUnset(k: Option<string>)

  /** What one call does to the map. */
  function MapStep(m: map<string, Option<string>>, call: Call): map<string, Option<string>> {
    match call
    case CallGet(_, _) => m
    case CallSet(k, v) => if k.Some? then m[k.value := v] else m
    case CallUnset(k) => if k.Some? then m - {k.value} else m
  }

  /** The map after a run of calls. */
  function MapAfter(m: map<string, Option<string>>, calls: seq<Call>): map<string, Option<string>> {
    if calls == [] then m else MapStep(MapAfter(m, calls[..|calls| - 1]), calls[|calls| - 1])
  }

  /** What one call hands back: only a lookup does. */
  function Answer(m: map<string, Option<string>>, call: Call): seq<Option<string>> {
    match call
    case CallGet(k, default) => [if k in m then m[k] else default]
    case _ => []
  }

  /** The answers a map gives to the lookups among the calls. */
  function Answers(m: map<string, Option<string>>, calls: seq<Call>): seq<Option<string>> {
    if calls == [] then []
    else
      var earlier := calls[..|calls| - 1];
      Answers(m, earlier) + Answer(MapAfter(m, earlier), calls[|calls| - 1])
  }

  method Perform(d: Dictionary, call: Call) returns (answer: seq<Option<string>>)
    requires d.Valid()
    modifies d, d.val, d.key, d.hash
    ensures d.Valid() && d.View() == MapStep(old(d.View()), call) && answer == Answer(old(d.View()), call)
    ensures d.val == old(d.val) || fresh(d.val)
    ensures d.key == old(d.key) || fresh(d.key)
    ensures d.hash == old(d.hash) || fresh(d.hash)
  {
    answer := [];
    match call
    case CallGet(k, default) =>
      var v := d.Get(k, default);
      answer := [v];
    case CallSet(k, v) =>
      var _ := d.Set(k, v);
    case CallUnset(k) =>
      d.Unset(k);
  }

  lemma OneMore(m: map<string, Option<string>>, calls: seq<Call>, i: nat)
    requires i < |calls|
    ensures MapAfter(m, calls[..i + 1]) == MapStep(MapAfter(m, calls[..i]), calls[i])
    ensures Answers(m, calls[..i + 1]) == Answers(m, calls[..i]) + Answer(MapAfter(m, calls[..i]), calls[i])
  {
    assert calls[..i + 1][..i] == calls[..i];
  }

  /** Any run of calls on a new dictionary answers like the map, through growth and holes. */
  method Run(wanted: nat, calls: seq<Call>) returns (d: Dictionary, answers: seq<Option<string>>)
    ensures d.Valid()
    ensures d.View() == MapAfter(map[], calls)
    ensures answers == Answers(map[], calls)
  {
    d := new Dictionary(wanted);
    answers := [];
    for i := 0 to |calls|
      invariant fresh(d) && fresh(d.val) && fresh(d.key) && fresh(d.hash)
      invariant d.Valid()
      invariant d.View() == MapAfter(map[], calls[..i])
      invariant answers == Answers(map[], calls[..i])
    {
      OneMore(map[], calls, i);
      hide MapAfter, Answers, Answer, MapStep;
      var answer := Perform(d, calls[i]);
      answers := answers + answer;
    }
    assert calls[..|calls|] == calls;
  }

  /**
   The header says that setting a key to NULL is the same as deleting it. It is not: a lookup then
   answers NULL instead of the default, for every default but NULL itself.
   */
  lemma SettingNullIsNotDeleting(m: map<string, Option<string>>, k: string, default: Option<string>)
    ensures Answers(m, [CallSet(Some(k), None), CallGet(k, default)])
         == Answers(m, [CallUnset(Some(k)), CallGet(k, default)])
       <==> default == None
  {
    ThenGet(m, CallSet(Some(k), None), k, default);
    ThenGet(m, CallUnset(Some(k)), k, default);
  }

  lemma ThenGet(m: map<string, Option<string>>, c: Call, k: string, default: Option<string>)
    requires !c.CallGet?
    ensures var now := MapAfter(m, [c]);
            Answers(m, [c, CallGet(k, default)]) == [if k in now then now[k] else default]
    ensures MapAfter(m, [c]) == MapStep(m, c)
  {
    assert [c, CallGet(k, default)][..1] == [c];
    assert [c][..0] == [];
    assert Answers(m, [c]) == Answers(m, []);
  }
}

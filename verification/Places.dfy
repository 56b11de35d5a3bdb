/**
 Places inside a denotation, named by reference tokens as in RFC 6901, and how resolving the text of
 such a place in a tree finds the node that denotes it.
 */
module Places {
  import opened CString
  import opened Digits
  import opened Json
  import opened Pointer

  /** Unescaped reference tokens, outermost first. */
  type Place = seq<string>

  /** A canonical array index. */
  function TokenIndex(token: string): (r: Option<nat>)
    ensures r.Some? ==> AllDigits(token)
  {
    if token != [] && AllDigits(token) && token == Decimal(Accumulate(token, 0)) then Some(Accumulate(token, 0))
    else None
  }

  lemma TokenOfIndex(i: nat)
    ensures TokenIndex(Decimal(i)) == Some(i)
  {
    DecimalReadsBack(i);
  }

  function Step(d: Denotation, token: string): (r: Option<Denotation>)
    ensures r.Some? ==> r.value < d
  {
    match d
    case DArray(items) =>
      (match TokenIndex(token)
       case Some(i) => if i < |items| then Some(items[i]) else None
       case None => None)
    case DObject(members) => if token in members then Some(members[token]) else None
    case _ => None
  }

  function StepPut(d: Denotation, token: string, x: Denotation): Denotation
    requires Step(d, token).Some?
  {
    match d
    case DArray(items) => DArray(items[TokenIndex(token).value := x])
    case DObject(members) => DObject(members[token := x])
  }

  function Find(d: Denotation, place: Place): Option<Denotation> {
    if place == [] then Some(d)
    else
      match Step(d, place[0])
      case None => None
      case Some(below) => Find(below, place[1..])
  }

  /** The denotation with what is at `place` overwritten by `x`. */
  function Overwrite(d: Denotation, place: Place, x: Denotation): Denotation
    requires Find(d, place).Some?
    decreases |place|
  {
    if place == [] then x
    else StepPut(d, place[0], Overwrite(Step(d, place[0]).value, place[1..], x))
  }

  /** The JSON Pointer text of a place. */
  function Text(place: Place): (r: string)
    ensures TokenEnds(r)
  {
    if place == [] then "" else "/" + Encode(place[0]) + Text(place[1..])
  }

  // ---- How places compose -------------------------------------------------------------------

  lemma {:induction false} StepPutStep(d: Denotation, token: string, x: Denotation)
    requires Step(d, token).Some?
    ensures Step(StepPut(d, token, x), token) == Some(x)
    ensures forall y :: StepPut(StepPut(d, token, x), token, y) == StepPut(d, token, y)
  {}

  lemma {:induction false} FindOverwritten(d: Denotation, place: Place, x: Denotation)
    requires Find(d, place).Some?
    ensures Find(Overwrite(d, place, x), place) == Some(x)
    decreases |place|
  {
    if place != [] {
      var below := Step(d, place[0]).value;
      StepPutStep(d, place[0], Overwrite(below, place[1..], x));
      FindOverwritten(below, place[1..], x);
    }
  }

  lemma {:induction false} OverwriteTwice(d: Denotation, place: Place, x: Denotation, y: Denotation)
    requires Find(d, place).Some?
    ensures Find(Overwrite(d, place, x), place).Some?
    ensures Overwrite(Overwrite(d, place, x), place, y) == Overwrite(d, place, y)
    decreases |place|
  {
    FindOverwritten(d, place, x);
    if place != [] {
      var below := Step(d, place[0]).value;
      OverwriteTwice(below, place[1..], x, y);
      StepPutStep(d, place[0], Overwrite(below, place[1..], x));
    }
  }

  lemma {:induction false} OverwriteSame(d: Denotation, place: Place)
    requires Find(d, place).Some?
    ensures Overwrite(d, place, Find(d, place).value) == d
    decreases |place|
  {
    if place != [] {
      OverwriteSame(Step(d, place[0]).value, place[1..]);
    }
  }

  /** One more token at the end: look there, then take the step. */
  lemma {:induction false} FindBelow(d: Denotation, place: Place, token: string)
    requires Find(d, place).Some?
    ensures Find(d, place + [token]) == Step(Find(d, place).value, token)
    decreases |place|
  {
    if place == [] {
      assert (place + [token])[1..] == [];
    } else {
      assert (place + [token])[1..] == place[1..] + [token];
      FindBelow(Step(d, place[0]).value, place[1..], token);
    }
  }

  lemma {:induction false} OverwriteBelow(d: Denotation, place: Place, token: string, x: Denotation)
    requires Find(d, place).Some? && Step(Find(d, place).value, token).Some?
    ensures Find(d, place + [token]).Some?
    ensures Overwrite(d, place + [token], x) == Overwrite(d, place, StepPut(Find(d, place).value, token, x))
    decreases |place|
  {
    FindBelow(d, place, token);
    if place == [] {
      assert (place + [token])[1..] == [];
    } else {
      assert (place + [token])[1..] == place[1..] + [token];
      OverwriteBelow(Step(d, place[0]).value, place[1..], token, x);
    }
  }

  lemma {:induction false} TextBelow(place: Place, token: string)
    ensures Text(place + [token]) == Text(place) + "/" + Encode(token)
  {
    if place == [] {
      assert (place + [token])[1..] == [];
    } else {
      assert (place + [token])[1..] == place[1..] + [token];
      TextBelow(place[1..], token);
    }
  }

  // ---- Resolving a place in a tree ----------------------------------------------------------

  /** The pointer text of a place selects, step by step, the child that denotes the next place. */
  lemma SelectAgrees(v: Value, token: string, rest: string, keys: iset<string>, caseSensitive: bool)
    requires Tame(v, keys) && ToldApart(keys, caseSensitive) && TokenEnds(rest)
    requires Step(Denote(v), token).Some?
    ensures var s := Select(v, Encode(token) + rest, caseSensitive);
            && s.Some?
            && Denote(Child(v, s.value)) == Step(Denote(v), token).value
            && Tame(Child(v, s.value), keys)
            && (v.Array? ==> Some(s.value) == TokenIndex(token))
            && (v.Object? ==> v.members[s.value].key == token)
  {
    if v.Array? {
      EncodePlain(token);
      IndexReadsBack(TokenIndex(token).value, rest);
    } else {
      DenoteMembersKeys(v.members, token);
      var i := FindByToken(v.members, Encode(token) + rest, caseSensitive);
      forall j | 0 <= j < |v.members|
        ensures ComparePointers(v.members[j].key, Encode(token) + rest, caseSensitive) <==> v.members[j].key == token
      {
        EncodedKeyMatches(v.members[j].key, token, rest, caseSensitive);
        CompareZero(v.members[j].key, token, caseSensitive);
      }
      DenoteMembersFirst(v.members, i);
    }
  }

  lemma {:induction false} Resolves(v: Value, place: Place, keys: iset<string>, caseSensitive: bool)
    requires Tame(v, keys) && ToldApart(keys, caseSensitive) && Find(Denote(v), place).Some?
    ensures var r := GetItem(v, Text(place), caseSensitive);
            && r.Some?
            && Denote(At(v, r.value)) == Find(Denote(v), place).value
            && Tame(At(v, r.value), keys)
    decreases |place|
  {
    if place != [] {
      var rest := Text(place[1..]);
      SelectAgrees(v, place[0], rest, keys, caseSensitive);
      GetItemStep(v, Encode(place[0]), rest, caseSensitive);
      assert Text(place) == "/" + Encode(place[0]) + rest;
      var i := Select(v, Encode(place[0]) + rest, caseSensitive).value;
      Resolves(Child(v, i), place[1..], keys, caseSensitive);
      var a := GetItem(Child(v, i), rest, caseSensitive).value;
      assert ([i] + a)[1..] == a;
    }
  }

  /** Overwriting the node found overwrites the place in the denotation. */
  lemma {:induction false} PutResolves(v: Value, place: Place, w: Value, keys: iset<string>, caseSensitive: bool)
    requires Tame(v, keys) && ToldApart(keys, caseSensitive) && Find(Denote(v), place).Some? && Tame(w, keys)
    ensures var r := GetItem(v, Text(place), caseSensitive);
            && r.Some?
            && Tame(Put(v, r.value, w), keys)
            && Denote(Put(v, r.value, w)) == Overwrite(Denote(v), place, Denote(w))
    decreases |place|
  {
    if place != [] {
      var rest := Text(place[1..]);
      SelectAgrees(v, place[0], rest, keys, caseSensitive);
      SkipsToken(Encode(place[0]), rest);
      assert Text(place)[1..] == Encode(place[0]) + rest;
      var i := Select(v, Encode(place[0]) + rest, caseSensitive).value;
      PutResolves(Child(v, i), place[1..], w, keys, caseSensitive);
      var a := GetItem(Child(v, i), rest, caseSensitive).value;
      assert ([i] + a)[1..] == a;
      PutChildDenotes(v, i, place[0], Put(Child(v, i), a, w), keys);
    }
  }

  lemma PutChildDenotes(v: Value, i: nat, token: string, w: Value, keys: iset<string>)
    requires i < ChildCount(v) && Tame(v, keys) && Tame(w, keys) && Step(Denote(v), token).Some?
    requires v.Array? ==> TokenIndex(token) == Some(i)
    requires v.Object? ==> v.members[i].key == token
    ensures Tame(PutChild(v, i, w), keys)
    ensures Denote(PutChild(v, i, w)) == StepPut(Denote(v), token, Denote(w))
  {
    if v.Array? {
      assert DenoteItems(v.items[i := w]) == DenoteItems(v.items)[i := Denote(w)];
    } else {
      DenoteUpdate(v.members, i, w);
    }
  }
}

/**
 JSON Patch (RFC 6902) as cJSON_Utils.c applies it.
 */
module Patch {
  import opened CString
  import opened Compare
  import opened Digits
  import opened Json
  import opened Pointer
  import opened Visits

  // ---- Splitting a path ---------------------------------------------------------------------

  datatype Split = NoSlash | Split(parent: string, child: string)

  /** Cuts at the last `/`, as `strrchr` finds it. */
  function SplitLast(path: string): (r: Split)
    ensures r.Split? ==> r.parent + "/" + r.child == path && '/' !in r.child
  {
    if path == [] then NoSlash
    else if path[|path| - 1] == '/' then Split(path[..|path| - 1], "")
    else
      match SplitLast(path[..|path| - 1])
      case NoSlash => NoSlash
      case Split(parent, child) =>
        assert path == path[..|path| - 1] + [path[|path| - 1]];
        Split(parent, child + [path[|path| - 1]])
  }

  /**
   `decode_pointer_inplace` with its read position `i` and write position `d`. Unescaped bytes are
   stepped over but never moved, `~1` writes one place too far, and a malformed escape stops without
   terminating the string.
   */
  function DecodeFrom(buffer: string, d: nat, i: nat): string
    requires d <= i <= |buffer|
    decreases |buffer| - i
  {
    if i == |buffer| then buffer[..d]
    else if buffer[i] != '~' then DecodeFrom(buffer, d + 1, i + 1)
    else if i + 1 < |buffer| && buffer[i + 1] == '0' then DecodeFrom(buffer[d := '~'], d + 1, i + 2)
    else if i + 1 < |buffer| && buffer[i + 1] == '1' then DecodeFrom(buffer[d + 1 := '/'], d + 1, i + 2)
    else buffer
  }

  function DecodeInPlace(s: string): string {
    DecodeFrom(s, 0, 0)
  }

  // ---- Edits --------------------------------------------------------------------------------

  datatype Detached = NotFound | Detached(root: Value, item: Value)

  /** The member a key names is looked up ignoring case, whatever the caller asked for. */
  function DetachChild(parent: Value, child: string): Option<nat> {
    match parent
    case Array(items) =>
      (match DecodeIndex(child)
       case Some(i) => if i < |items| then Some(i) else None
       case None => None)
    case Object(members) =>
      var i := IndexOf(members, child, false);
      if i < |members| then Some(i) else None
    case _ => None
  }

  function WithoutChild(parent: Value, i: nat): Value
    requires i < ChildCount(parent)
  {
    match parent
    case Array(items) => Array(Remove(items, i))
    case Object(members) => Object(Remove(members, i))
  }

  /** `detach_path`. */
  function DetachPath(root: Value, path: string, caseSensitive: bool): Detached {
    match SplitLast(path)
    case NoSlash => NotFound
    case Split(parentPath, child) =>
      match GetItem(root, parentPath, caseSensitive)
      case None => NotFound
      case Some(a) =>
        var parent := At(root, a);
        match DetachChild(parent, DecodeInPlace(child))
        case None => NotFound
        case Some(i) => Detached(Put(root, a, WithoutChild(parent, i)), Child(parent, i))
  }

  function WithoutMember(members: Members, name: string, caseSensitive: bool): Members {
    var i := IndexOf(members, name, caseSensitive);
    if i < |members| then Remove(members, i) else members
  }

  /** A tree and the status code of the operation that led to it. */
  datatype Patched = Patched(root: Value, status: int)

  /** The last part of `apply_patch`: put `value` where `path` says. */
  function AddAt(root: Value, path: string, value: Value, caseSensitive: bool): Patched {
    match SplitLast(path)
    case NoSlash => Patched(root, 9)
    case Split(parentPath, encoded) =>
      var child := DecodeInPlace(encoded);
      match GetItem(root, parentPath, caseSensitive)
      case None => Patched(root, 9)
      case Some(a) =>
        match At(root, a)
        case Array(items) =>
          if child == "-" then Patched(Put(root, a, Array(items + [value])), 0)
          else
            (match DecodeIndex(child)
             case None => Patched(root, 11)
             case Some(i) =>
               if i > |items| then Patched(root, 10)
               else Patched(Put(root, a, Array(Insert(items, i, value))), 0))
        case Object(members) =>
          Patched(Put(root, a, Object(WithoutMember(members, child, caseSensitive) + [Entry(child, value)])), 0)
        case _ => Patched(root, 9)
  }

  // ---- One operation ------------------------------------------------------------------------

  datatype Operation = InvalidOperation | Add | RemoveOp | Replace | Move | Copy | Test

  function DecodeOperation(patch: Value, caseSensitive: bool): Operation {
    match GetObjectItem(patch, "op", caseSensitive)
    case Some(String(text)) =>
      if text == "add" then Add
      else if text == "remove" then RemoveOp
      else if text == "replace" then Replace
      else if text == "move" then Move
      else if text == "copy" then Copy
      else if text == "test" then Test
      else InvalidOperation
    case _ => InvalidOperation
  }

  /** `test` compares with the node itself, and the comparison sorts the objects it reaches. */
  function TestAt(root: Value, a: Address, value: Value, caseSensitive: bool): Patched
    requires IsNode(root, a)
  {
    Patched(Put(root, a, Visited(At(root, a), value, caseSensitive)),
            if CompareJson(At(root, a), value, caseSensitive) then 0 else 1)
  }

  /** `apply_patch`. */
  function ApplyPatch(root: Value, patch: Value, caseSensitive: bool): Patched {
    match GetObjectItem(patch, "path", caseSensitive)
    case Some(String(path)) =>
      var value := GetObjectItem(patch, "value", caseSensitive);
      (match DecodeOperation(patch, caseSensitive)
       case InvalidOperation => Patched(root, 3)
       case Test =>
         var item := GetItem(root, path, caseSensitive);
         if item.None? || value.None? then Patched(root, 1)
         else TestAt(root, item.value, value.value, caseSensitive)
       case RemoveOp =>
         if path == "" then Patched(Invalid, 0)
         else
           (match DetachPath(root, path, caseSensitive)
            case NotFound => Patched(root, 13)
            case Detached(left, _) => Patched(left, 0))
       case Replace =>
         if path == "" then
           if value.None? then Patched(root, 7) else Patched(value.value, 0)
         else
           (match DetachPath(root, path, caseSensitive)
            case NotFound => Patched(root, 13)
            case Detached(left, _) =>
              if value.None? then Patched(left, 7) else AddAt(left, path, value.value, caseSensitive))
       case Add =>
         if value.None? then Patched(root, 7)
         else if path == "" then Patched(value.value, 0)
         else AddAt(root, path, value.value, caseSensitive)
       case Move =>
         (match GetObjectItem(patch, "from", caseSensitive)
          case None => Patched(root, 4)
          case Some(String(from)) =>
            (match DetachPath(root, from, caseSensitive)
             case NotFound => Patched(root, 5)
             case Detached(left, item) => AddAt(left, path, item, caseSensitive))
          case Some(_) => Patched(root, 5))
       case Copy =>
         (match GetObjectItem(patch, "from", caseSensitive)
          case None => Patched(root, 4)
          case Some(String(from)) =>
            (match GetItem(root, from, caseSensitive)
             case None => Patched(root, 5)
             case Some(a) => AddAt(root, path, At(root, a), caseSensitive))
          case Some(_) => Patched(root, 5)))
    case _ => Patched(root, 2)
  }

  /** The loop of `cJSONUtils_ApplyPatches`: stops at the first operation that fails. */
  function ApplyAll(root: Value, patches: seq<Value>, caseSensitive: bool): Patched
    decreases |patches|
  {
    if patches == [] then Patched(root, 0)
    else
      var first := ApplyPatch(root, patches[0], caseSensitive);
      if first.status != 0 then first else ApplyAll(first.root, patches[1..], caseSensitive)
  }

  function ApplyPatches(root: Value, patches: Value, caseSensitive: bool): Patched {
    if patches.Array? then ApplyAll(root, patches.items, caseSensitive) else Patched(root, 1)
  }

  lemma {:induction false} ApplyAllConcat(root: Value, first: seq<Value>, second: seq<Value>, caseSensitive: bool)
    ensures ApplyAll(root, first + second, caseSensitive) ==
              var r := ApplyAll(root, first, caseSensitive);
              if r.status != 0 then r else ApplyAll(r.root, second, caseSensitive)
    decreases |first|
  {
    if first == [] {
      assert first + second == second;
    } else {
      assert (first + second)[1..] == first[1..] + second;
      ApplyAllConcat(ApplyPatch(root, first[0], caseSensitive).root, first[1..], second, caseSensitive);
    }
  }
}

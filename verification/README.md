# cJSON and the iniparser dictionary, modelled and proved

The project models the JSON library that the MQTT client vendors (cJSON 1.7.15, `mqtt/src/cJSON.c`),
its utility layer (`cJSON_Utils.c`: JSON Pointer, JSON Patch, JSON Merge Patch) and the string
dictionary of iniparser (`mqtt/src/dictionary.c`), and proves what they are for: a generated patch
leads from one document to the other, printed text parses back, the in-place list code keeps its
links, the dictionary answers like a map.

`dafny verify dfyconfig.toml` checks everything.

## How it is built

A JSON tree is a value (`Json.Value`): children are ordered sequences and an object may repeat a key.
`Json.Denote` is its meaning, objects as maps; "equal up to member order" is equality of meanings. The
theorems about diffing, patching, comparing and merging range over trees that are `Tame`: whole
numbers of at most 15 digits, distinct keys within an object, and keys from a vocabulary `keys`. The
vocabulary carries the exact condition each law needs; `Limits` proves that the condition is not only
sufficient but necessary.

| module | what it holds |
|---|---|
| CString, Digits, Json | C strings and their comparison, decimal text, trees and their meaning |
| KeySort, SortTies, Compare | the sort order, what it does to equal names, and the two structural comparisons |
| Pointer, PointerText, Places, Patch, PatchEffects, Diff | pointers and their text, patches, and "diff, then apply" |
| DiffPrecise, Missing | a generated patch says no more than it must; places that are not there, and the status codes |
| MergePatch, MergeOrder | merge patches against RFC 7396, and the order of members |
| Visits, PatchOps | what a comparison does to the tree, the operations a generated patch never uses, and failing halfway |
| Tails, TailedLists, Trees | member lists with the tail their head records: the algebra, the nodes on the heap, whole trees |
| TreePatch, TestThenAdd, LostAdditions | patching such trees: when it does what it should, and inputs on which it does not |
| Limits | where the laws end: exact conditions, and inputs beyond them |
| PointerLoops, PatchRuns, CompareRuns, MergeRuns | the loops of cJSON_Utils.c, tied to the functions above |
| Nodes, ChildList, ListSort, SortThenAppend, Duplicate | nodes on the heap: list operations, in-place sort, what an append does after it, deep copy |
| Render, Layout, Escaping, Printer | the text of a tree, its layout, its literals by RFC 8259, and the growable-buffer printer that writes it |
| Parse, Parser, RoundTrip, Parsed, Unicode | the parsing function, the cursor-based parser, "print, then parse" and back, and `\u` escapes against UTF-8 |
| Numerals, Literals, Grammar | which numbers, string contents and documents are accepted, and as what: without a parser in the statement |
| Overrun, Truncated | on which inputs a failing parse leaves its cursor behind the NUL |
| Minify, Comments, MinifyRender | the in-place minifier, what it drops and keeps, and what it makes of formatted text |
| Dictionary, KnownHashes | the dictionary, its runs, and the map it implements; its hash |

Child lists (`ChildList`, `ListSort`, `TailedLists`, `SortThenAppend`, `Duplicate`) are nodes on the
heap; the printer, the parser, the minifier, the in-place decoder and the dictionary work on arrays
and cursors. The loops of diffing, patching, merging and comparing (`PatchRuns`, `CompareRuns`,
`MergeRuns`) and the parsed tree are trees as values that the methods reassign. The trees that are
patched carry the one thing about links that patching depends on, the tail each object has recorded.
Every method is proved against a function, and the laws are proved about the function.

Where the code and its documentation disagree, the model follows the code:

* `decode_pointer_inplace` does not move unescaped bytes, so most keys with `~` and all keys with `/`
  get lost on the way through a patch path (`Limits.SurvivesExactly`, `Limits.DiffLawExactly`).
* `detach_path` ignores case even in the case-sensitive functions (`Limits.DiffLawExactly`).
* `generate_merge_patch` sorts by one comparison and walks by another, and forgets the case mode below
  the top level (`Limits.MergeLawExactly`).
* The index decoder tests the first character where it means the current one
  (`Limits.IndexDecodedExactly`).
* The minifier takes a backslash before a quote for an escape even when the backslash is itself
  escaped (`MinifyRender.MinifyOfFormatted`).
* A failing parse can leave the cursor one byte behind the NUL (`Parser.CursorBehindNul`), exactly on
  documents cut off where a name is due (`Truncated.OverrunExactly`).
* An operation that fails can have changed the document: it has taken something out first, or it is
  a `test` that has sorted objects (`PatchOps.FailureChangesExactly`, `PatchOps.FailureMeansExactly`).
* A `test` can make a later `add` to an object it has compared report success and lose members: exactly
  when it has moved the first or the last member, and the `add` does not replace the last one
  (`TestThenAdd.AddBehindTest`, `LostAdditions.AdditionLost`).
* Setting a dictionary key to NULL is not the same as deleting it
  (`Dictionary.SettingNullIsNotDeleting`).
* After `sort_object` a new head knows no tail and an old head still points at the old one. Unless the
  first and the last child kept their places, the next append loses the item or cuts children off
  (`ListSort.SortObject`, `SortThenAppend.AppendAfterSort`).

## Model

| member | source | states |
|---|---|---|
| CString.CompareZero | mqtt/open_source_lib/cJSON/cJSON-1.7.15/cJSON_Utils.c:83-109 | two strings compare equal exactly when they are the same string, after lower-casing when case is ignored |
| CString.CompareFlips | mqtt/open_source_lib/cJSON/cJSON-1.7.15/cJSON_Utils.c:83-109 | the three-way string comparison is antisymmetric |
| CString.CompareTransitive | mqtt/open_source_lib/cJSON/cJSON-1.7.15/cJSON_Utils.c:83-109 | the three-way string comparison is transitive, strictly so as soon as one step is strict |
| CString.NormExactly | mqtt/open_source_lib/cJSON/cJSON-1.7.15/cJSON_Utils.c:83-109 | two bytes count as one exactly when they are the same or, ignoring case, the capital and the small form of a letter A to Z |
| CString.NormIs | mqtt/open_source_lib/cJSON/cJSON-1.7.15/cJSON_Utils.c:83-109 | it is the capital letter that counts as the small one, which decides the order against the bytes between the two |
| CString.CompareIsLexicographic | mqtt/open_source_lib/cJSON/cJSON-1.7.15/cJSON_Utils.c:83-109 | one string comes before another exactly when they agree up to some position where the first ends or has the smaller byte |
| PointerLoops.CompareStringsInStep | mqtt/open_source_lib/cJSON/cJSON-1.7.15/cJSON_Utils.c:83-109 | the byte-by-byte loop over two C strings gives the sign of the comparison and reads nothing behind a terminator |
| Json.LookupIsMap | mqtt/src/cJSON.c:1876-1906 | a case-sensitive lookup finds exactly the key of the map an object denotes, the first of several members with that key |
| Compare.CompareDoubleIsEquality | mqtt/src/cJSON.c:538-542 | on whole numbers of at most 15 digits the epsilon comparison is equality |
| Compare.NeighboursEqual | mqtt/src/cJSON.c:538-542 | two doubles of the same exponent compare equal exactly when they are the same or differ by one unit in the last place |
| Compare.SignsDiffer | mqtt/src/cJSON.c:538-542 | a negative number never compares equal to one that is not negative |
| Compare.CompareIsEquality | mqtt/src/cJSON.c:2977-3100 | `cJSON_Compare` (case sensitive) holds exactly when the two trees denote the same value: objects as maps, arrays as sequences |
| Compare.CompareIsEquivalence | mqtt/src/cJSON.c:2977-3100 | hence it is reflexive, symmetric and transitive |
| Compare.CompareIgnoresOrder | mqtt/src/cJSON.c:3059-3094 | reordering the members of an object does not change the outcome |
| Compare.CompareValuesDecides | mqtt/src/cJSON.c:2977-3100 | the same for either case mode, over any vocabulary of keys that the mode tells apart |
| Compare.CompareJsonDecides | mqtt/open_source_lib/cJSON/cJSON-1.7.15/cJSON_Utils.c:604-690 | the sort-then-walk comparison of the utilities decides the same equality |
| MergeRuns.CompareValuesInStep | mqtt/src/cJSON.c:2977-3100 | the loops of `cJSON_Compare` compute the predicate the laws speak of |
| MergeRuns.AllMatched | mqtt/src/cJSON.c:3059-3094 | one pass over the members succeeds exactly when each is found in the other object and compares equal |
| MergeRuns.CompareJsonInStep | mqtt/open_source_lib/cJSON/cJSON-1.7.15/cJSON_Utils.c:604-690 | the outcome of `compare_json` alone, as the merge patch generator uses it |
| KeySort.SortPermutes | mqtt/open_source_lib/cJSON/cJSON-1.7.15/cJSON_Utils.c:484-593 | the sorted order is a permutation of the list, repeated names included |
| KeySort.SortSorts | mqtt/open_source_lib/cJSON/cJSON-1.7.15/cJSON_Utils.c:484-593 | the sorted order is non-decreasing, ties and already sorted input included |
| KeySort.SortKeepsMeaning | mqtt/open_source_lib/cJSON/cJSON-1.7.15/cJSON_Utils.c:595-602 | sorting an object with distinct keys does not change the map it denotes |
| SortTies.TiesReverse | mqtt/open_source_lib/cJSON/cJSON-1.7.15/cJSON_Utils.c:534-592 | members whose names compare equal always come out in the reverse of the order they had |
| ListSort.SortList | mqtt/open_source_lib/cJSON/cJSON-1.7.15/cJSON_Utils.c:484-593 | for every list with names: the in-place sort ends with a null-terminated, acyclic `next` chain with correct interior `prev` links, holding the nodes in the order of the merge sort; the `prev` of the head is the old tail when the head stays, NULL when it changes |
| ListSort.MergeLists | mqtt/open_source_lib/cJSON/cJSON-1.7.15/cJSON_Utils.c:534-592 | the merge loop, rewiring nodes of two disjoint chains, leaves one chain in merged order |
| ListSort.TestSorted | mqtt/open_source_lib/cJSON/cJSON-1.7.15/cJSON_Utils.c:498-507 | the early test succeeds exactly on strictly increasing names |
| ListSort.FindMiddle | mqtt/open_source_lib/cJSON/cJSON-1.7.15/cJSON_Utils.c:509-521 | the two-pointer walk stops at position (n + 1) / 2 |
| ListSort.Split | mqtt/open_source_lib/cJSON/cJSON-1.7.15/cJSON_Utils.c:522-527 | cutting there leaves two chains |
| ListSort.SortedListMeaning | mqtt/open_source_lib/cJSON/cJSON-1.7.15/cJSON_Utils.c:484-593 | the sorted chain has exactly the same nodes, non-decreasing by name |
| ListSort.SortObject | mqtt/open_source_lib/cJSON/cJSON-1.7.15/cJSON_Utils.c:595-602 | sorting an object leaves a correct chain; a fully linked list stays fully linked exactly when its first and its last child keep their places |
| SortThenAppend.AppendAfterSort | mqtt/open_source_lib/cJSON/cJSON-1.7.15/cJSON_Utils.c:595-602 | sorting the members of a fully linked object and then appending an item: the append always succeeds; with a new first member the item is lost, with the old one everything behind the old last member is cut off, and the list is complete exactly when both ends kept their places |
| SortThenAppend.ItemLost | mqtt/src/cJSON.c:1952-1983 | such an input: the members b, a; after sorting, the appended item is lost |
| SortThenAppend.MemberCutOff | mqtt/src/cJSON.c:1966-1977 | another: the members a, c, b; after sorting, the append cuts off c |
| TailedLists.SortChildren | mqtt/open_source_lib/cJSON/cJSON-1.7.15/cJSON_Utils.c:595-602 | on a list with any recorded tail (none, a child, or a node that is gone), sorting does to the nodes what `Tails.Reordered` says |
| TailedLists.TakeOut | mqtt/src/cJSON.c:2183-2217 | the same for taking a child out |
| TailedLists.Attach | mqtt/src/cJSON.c:1952-1983 | the same for an append, unless the recorded node is gone |
| TailedLists.SetMember | mqtt/open_source_lib/cJSON/cJSON-1.7.15/cJSON_Utils.c:1005-1017 | the same for setting a member: find it, take it out, append |
| TailedLists.LinkedIsComplete | mqtt/src/cJSON.c:1952-1983 | a list is linked as every operation expects exactly when its record is right |
| Tails.EndsStayIs | mqtt/open_source_lib/cJSON/cJSON-1.7.15/cJSON_Utils.c:484-602 | with distinct names, the ends keep their places exactly when the first and the last member of the sorted list are the old ones |
| Tails.DroppedComplete | mqtt/src/cJSON.c:2183-2217 | taking a child out leaves the record right exactly when it was right, or the last child goes |
| Tails.AppendedExactly | mqtt/src/cJSON.c:1952-1983 | an append keeps all children and the item exactly when the record is right |
| Tails.ReplacedExactly | mqtt/open_source_lib/cJSON/cJSON-1.7.15/cJSON_Utils.c:1005-1017 | setting a member loses nothing exactly when the record is right, or the replaced member is the last |
| Tails.SortedListComplete | mqtt/open_source_lib/cJSON/cJSON-1.7.15/cJSON_Utils.c:484-602 | sorting keeps a right record right exactly when the first and the last child keep their places |
| ChildList.GetArrayItem | mqtt/src/cJSON.c:1847-1864 | the walk returns the child at the index, or NULL behind the end or without a parent |
| ChildList.AddItemToArray | mqtt/src/cJSON.c:1952-1983 | append puts the item behind the child the head takes for the tail: the list stays fully linked exactly when the item has no successor; children behind that recorded tail are cut off, and with no recorded tail the item is lost although the call succeeds |
| ChildList.AppendItem | mqtt/src/cJSON.c:1986-1989 | append on a fully linked list: the list with the item at its end, fully linked exactly when the item had no successor or the list was empty |
| ChildList.DetachItemViaPointer | mqtt/src/cJSON.c:2183-2217 | detach removes exactly that child and clears its links, on any chain: the next head takes over the recorded tail, and taking out the last of several children puts the record right; a fully linked list stays one |
| ChildList.InsertItemInArray | mqtt/src/cJSON.c:2259-2286 | insert puts the item at the index and keeps the list fully linked, appends behind the end, refuses a negative index |
| ChildList.ReplaceItemViaPointer | mqtt/src/cJSON.c:2288-2335 | replace swaps the node in place, for a single child and for replacement by itself too, and keeps the list fully linked |
| ChildList.DetachItemFromArray | mqtt/open_source_lib/cJSON/cJSON-1.7.15/cJSON_Utils.c:393-427 | detach by index: the child at that index leaves the list, which stays fully linked; nothing changes behind the end |
| ChildList.InsertItem | mqtt/open_source_lib/cJSON/cJSON-1.7.15/cJSON_Utils.c:693-728 | insert by index, refused exactly behind the end, an append at the end |
| Duplicate.Duplicate | mqtt/src/cJSON.c:2697-2778 | the copy is a tree of fresh nodes, no node twice, every child list fully linked, with the payload of the original and no reference nodes; below a non-recursive copy there is nothing. The original needs only its `child` and `next` pointers |
| Duplicate.OwnedSameValue | mqtt/src/cJSON.c:2716 | clearing the reference bit does not change the JSON tree |
| Duplicate.DuplicateComparesEqual | mqtt/src/cJSON.c:2977-3100 | `cJSON_Compare` accepts a tree and its recursive duplicate |
| Pointer.EncodedKeyMatches | mqtt/open_source_lib/cJSON/cJSON-1.7.15/cJSON_Utils.c:120-154 | an escaped key matches exactly the keys equal to it: escaping loses nothing against the matcher |
| PointerText.EncodesByteByByte | mqtt/open_source_lib/cJSON/cJSON-1.7.15/cJSON_Utils.c:173-196 | escaping goes byte by byte: `~` becomes `~0`, `/` becomes `~1`, every other byte stays |
| PointerText.KeyBack | mqtt/open_source_lib/cJSON/cJSON-1.7.15/cJSON_Utils.c:120-196 | unescaped by section 4 of RFC 6901, an escaped key is the key again |
| PointerText.MatchesExactly | mqtt/open_source_lib/cJSON/cJSON-1.7.15/cJSON_Utils.c:120-154 | a token matches a name exactly when it is well-formed by section 4 of RFC 6901 and unescaped compares equal to the name; a `~` before anything but 0 or 1 matches nothing |
| Pointer.IndexReadsBack | mqtt/open_source_lib/cJSON/cJSON-1.7.15/cJSON_Utils.c:274-299 | a printed array index is decoded back, up to the width of `size_t` |
| Pointer.FindPointerFinds | mqtt/open_source_lib/cJSON/cJSON-1.7.15/cJSON_Utils.c:198-259 | the search returns the pointer text of the one place where the target is, and NULL if it is not in the tree |
| Pointer.PointerRoundTrip | mqtt/open_source_lib/cJSON/cJSON-1.7.15/cJSON_Utils.c:198-346 | resolving the pointer found for a node leads back to that node, exactly when no earlier member of the same name stands on the way; keys may hold any bytes |
| Pointer.EveryNodeIsFound | mqtt/open_source_lib/cJSON/cJSON-1.7.15/cJSON_Utils.c:198-346 | in a tree with distinct keys every node is found again |
| PointerLoops.ComparePointersInStep | mqtt/open_source_lib/cJSON/cJSON-1.7.15/cJSON_Utils.c:120-154 | the two-pointer loop computes the matcher and reads nothing behind a terminator |
| PointerLoops.EncodedLength | mqtt/open_source_lib/cJSON/cJSON-1.7.15/cJSON_Utils.c:157-170 | the computed length is the length of the escaped string |
| PointerLoops.EncodeInto | mqtt/open_source_lib/cJSON/cJSON-1.7.15/cJSON_Utils.c:173-196 | the copy loop writes the escaped string and its NUL at the given place, and nothing else |
| PointerLoops.DecodeIndexInStep | mqtt/open_source_lib/cJSON/cJSON-1.7.15/cJSON_Utils.c:274-299 | the digit loop computes the index, or rejects |
| PointerLoops.GetItemInStep | mqtt/open_source_lib/cJSON/cJSON-1.7.15/cJSON_Utils.c:301-346 | the walk along the path returns the node the lookup function names, or NULL |
| PointerLoops.FindByTokenInStep | mqtt/open_source_lib/cJSON/cJSON-1.7.15/cJSON_Utils.c:324-332 | the walk along the members stops at the first key the token matches |
| PointerLoops.FindPointerInStep | mqtt/open_source_lib/cJSON/cJSON-1.7.15/cJSON_Utils.c:198-259 | the recursive search with its loop over the children returns the pointer text |
| PointerLoops.DecodePointerInPlace | mqtt/open_source_lib/cJSON/cJSON-1.7.15/cJSON_Utils.c:359-390 | the in-place decoder leaves the decoded string, its quirks included, and touches nothing behind the old end |
| PointerText.DecodesToLength | mqtt/open_source_lib/cJSON/cJSON-1.7.15/cJSON_Utils.c:359-390 | the in-place decoder leaves a string of the length the unescaped key has, though not always that key |
| Limits.SurvivesExactly | mqtt/open_source_lib/cJSON/cJSON-1.7.15/cJSON_Utils.c:359-390 | a key comes back from its escaped form exactly when it has no `/` and each byte other than `~` has the same position in the escaped form |
| Limits.IndexDecodedExactly | mqtt/open_source_lib/cJSON/cJSON-1.7.15/cJSON_Utils.c:274-299 | the index decoder agrees with `array-index` of RFC 6901 section 4 exactly when the token is not empty, does not go on past its digits with characters behind 9, and does not overflow |
| Diff.DiffThenApply | mqtt/open_source_lib/cJSON/cJSON-1.7.15/cJSON_Utils.c:1141-1279 | diff, then apply: on any tree equal to `from` up to member order, such as a duplicate made beforehand, the generated patch succeeds with status 0 and leaves a tree equal to `to` up to member order, over every vocabulary of keys that patch paths can address |
| DiffPrecise.EmptyExactly | mqtt/open_source_lib/cJSON/cJSON-1.7.15/cJSON_Utils.c:1141-1279 | the generated patch is empty exactly when the two documents are equal |
| DiffPrecise.TouchesDifferences | mqtt/open_source_lib/cJSON/cJSON-1.7.15/cJSON_Utils.c:1141-1279 | every generated operation is needed where it stands: a `replace` names a place where both documents have a value, not the same and not two arrays or two objects, and brings that of `to`; a `remove` a member only `from` has, or the first index behind the array of `to`; an `add` a member only `to` has, or the end of an array, with the value `to` has there |
| Diff.PatchesWork | mqtt/open_source_lib/cJSON/cJSON-1.7.15/cJSON_Utils.c:1141-1279 | the patches of a subtree rewrite the place of that subtree and nothing else |
| Diff.MemberPatchesWork | mqtt/open_source_lib/cJSON/cJSON-1.7.15/cJSON_Utils.c:1214-1274 | the walk over two sorted member lists turns one object into the other, whatever has been dealt with before |
| Diff.ItemPatchesWork | mqtt/open_source_lib/cJSON/cJSON-1.7.15/cJSON_Utils.c:1170-1212 | the array case: common indices, then a tail removed at one fixed index, or a tail appended at `-` |
| Limits.PlainDiffThenApply | mqtt/open_source_lib/cJSON/cJSON-1.7.15/cJSON_Utils.c:1038-1309 | diff, then apply to a copy of `from`, on trees whose keys hold no upper-case letter, `~` or `/` |
| Limits.DiffLawExactly | mqtt/open_source_lib/cJSON/cJSON-1.7.15/cJSON_Utils.c:430-481 | the law holds for all trees over a vocabulary exactly when its keys survive the in-place decoder and no two of them differ only in case, in either case mode |
| Patch.ApplyAllConcat | mqtt/open_source_lib/cJSON/cJSON-1.7.15/cJSON_Utils.c:1038-1094 | applying one list of patches behind another is applying their concatenation, stopping at the first failure (on values, which `TestThenAdd.RunFollows` relates to the lists) |
| PatchEffects.DetachesMember | mqtt/open_source_lib/cJSON/cJSON-1.7.15/cJSON_Utils.c:430-481 | detaching by path takes exactly that member out of the object at the place |
| PatchEffects.DetachesItem | mqtt/open_source_lib/cJSON/cJSON-1.7.15/cJSON_Utils.c:430-481 | detaching by path takes exactly that item out of the array at the place |
| PatchEffects.AddsMember | mqtt/open_source_lib/cJSON/cJSON-1.7.15/cJSON_Utils.c:959-1017 | adding by path sets exactly that key of the object at the place |
| PatchEffects.InsertsItem | mqtt/open_source_lib/cJSON/cJSON-1.7.15/cJSON_Utils.c:981-1004 | adding at an index inserts there and shifts the rest |
| PatchEffects.Replaces | mqtt/open_source_lib/cJSON/cJSON-1.7.15/cJSON_Utils.c:887-1020 | detach followed by add at the same path overwrites that place and nothing else |
| Places.Resolves | mqtt/open_source_lib/cJSON/cJSON-1.7.15/cJSON_Utils.c:301-346 | resolving a path agrees with walking the meaning of the tree |
| Missing.MissesExactly | mqtt/open_source_lib/cJSON/cJSON-1.7.15/cJSON_Utils.c:301-346 | resolving a path finds nothing exactly when walking the meaning of the tree finds nothing: an index behind the end, a missing member, a token below a scalar, the last token or one on the way |
| Missing.NoSlashIsRoot | mqtt/open_source_lib/cJSON/cJSON-1.7.15/cJSON_Utils.c:301-308 | a pointer that does not begin with a slash leads to the document itself |
| Missing.DetachMissesExactly | mqtt/open_source_lib/cJSON/cJSON-1.7.15/cJSON_Utils.c:430-481 | there is nothing to detach exactly where the document has nothing |
| Missing.AddStatusExactly | mqtt/open_source_lib/cJSON/cJSON-1.7.15/cJSON_Utils.c:959-1017 | putting a value at a path: 0, or 9 when nothing that can hold children is at the parent place, 10 behind the end of an array, 11 when the token is no index |
| PatchRuns.PatchList.Compose | mqtt/open_source_lib/cJSON/cJSON-1.7.15/cJSON_Utils.c:1096-1134 | appends one operation object with the full, escaped path |
| PatchRuns.PatchList.Create | mqtt/open_source_lib/cJSON/cJSON-1.7.15/cJSON_Utils.c:1141-1279 | the recursion with its loops appends exactly the list of patches the law speaks of |
| PatchRuns.PatchList.CreateForItems | mqtt/open_source_lib/cJSON/cJSON-1.7.15/cJSON_Utils.c:1170-1212 | the three loops of the array case append exactly the patches of that case |
| PatchRuns.PatchList.CreateForMembers | mqtt/open_source_lib/cJSON/cJSON-1.7.15/cJSON_Utils.c:1214-1274 | the walk over both sorted lists appends exactly the patches of that case |
| PatchRuns.GenerateInStep | mqtt/open_source_lib/cJSON/cJSON-1.7.15/cJSON_Utils.c:1281-1309 | the public function returns the array of those patches |
| PatchRuns.Document.Detach | mqtt/open_source_lib/cJSON/cJSON-1.7.15/cJSON_Utils.c:430-481 | detaches the child the path names, or changes nothing, on lists with recorded tails |
| PatchRuns.Document.AddValue | mqtt/open_source_lib/cJSON/cJSON-1.7.15/cJSON_Utils.c:959-1024 | puts the value where the path says, behind whatever child is recorded as the tail, or leaves the document and returns 9, 10 or 11 |
| PatchRuns.Document.TestValue | mqtt/open_source_lib/cJSON/cJSON-1.7.15/cJSON_Utils.c:831-836 | `test` runs the comparison on the node itself and leaves it sorted as far as the comparison got |
| PatchRuns.Document.Apply | mqtt/open_source_lib/cJSON/cJSON-1.7.15/cJSON_Utils.c:807-1036 | the six operations with all their status codes on lists with recorded tails, and what of the document has changed when one fails |
| PatchRuns.Document.ApplyEach | mqtt/open_source_lib/cJSON/cJSON-1.7.15/cJSON_Utils.c:1038-1094 | applies patch after patch to the lists as they are linked and stops at the first that fails |
| CompareRuns.CompareInPlace | mqtt/open_source_lib/cJSON/cJSON-1.7.15/cJSON_Utils.c:604-690 | the loops of `compare_json` compute the outcome and the tree they leave, every object reached sorted, up to the first difference |
| Visits.VisitedMeans | mqtt/open_source_lib/cJSON/cJSON-1.7.15/cJSON_Utils.c:604-690 | a comparison never changes the meaning of a tree with distinct keys |
| Visits.VisitedChanges | mqtt/open_source_lib/cJSON/cJSON-1.7.15/cJSON_Utils.c:604-690 | it changes the tree itself exactly when it reaches an object whose members are not sorted |
| Trees.WholeCompared | mqtt/open_source_lib/cJSON/cJSON-1.7.15/cJSON_Utils.c:604-690 | it leaves every recorded tail right exactly when no object it reaches has its first or last member moved by the sort |
| TreePatch.OperationExactly | mqtt/open_source_lib/cJSON/cJSON-1.7.15/cJSON_Utils.c:807-1036 | on lists with any recorded tails, every operation returns the status of the model on values; its document is that of the model exactly when it does not add to an object with a wrong record, other than in the place of the last member; and from right records, only a `test` that moves the ends of an object makes one wrong |
| TestThenAdd.RunFollows | mqtt/open_source_lib/cJSON/cJSON-1.7.15/cJSON_Utils.c:1038-1094 | a run in which no operation loses members has the status and the document of `Patch.ApplyAll` |
| TestThenAdd.WholeRun | mqtt/open_source_lib/cJSON/cJSON-1.7.15/cJSON_Utils.c:1038-1094 | on a document with right records, nothing is lost unless a `test` of the run moves the first or last member of an object |
| TestThenAdd.AddBehindTest | mqtt/open_source_lib/cJSON/cJSON-1.7.15/cJSON_Utils.c:807-1036 | an `add` to an object that a `test` has compared always succeeds, and does what it should exactly when the first and the last member kept their places in the sort, or the member it replaces is the last of the sorted object |
| TestThenAdd.DiffThenApplyTree | mqtt/open_source_lib/cJSON/cJSON-1.7.15/cJSON_Utils.c:1038-1309 | diff, then apply, on the lists as they are linked, for any document equal to `from` whose records are right, such as a parsed one or a duplicate |
| LostAdditions.FailingTestSorts | mqtt/open_source_lib/cJSON/cJSON-1.7.15/cJSON_Utils.c:831-836 | the document {b, a} and a `test` against {}: status 1, nothing taken out, and the document is {a, b} |
| LostAdditions.AdditionLost | mqtt/open_source_lib/cJSON/cJSON-1.7.15/cJSON_Utils.c:831-1017 | the document {b, a}, a `test` that succeeds and an `add` of c: status 0, and c is nowhere |
| LostAdditions.GeneratedAdditionLost | mqtt/open_source_lib/cJSON/cJSON-1.7.15/cJSON_Utils.c:1141-1279 | a patch generated from {b, a}, applied to that very tree, which the generator has sorted: status 0, and c is nowhere |
| PatchOps.TestDecides | mqtt/open_source_lib/cJSON/cJSON-1.7.15/cJSON_Utils.c:831-836 | `test` succeeds exactly when the place holds an equal value, and keeps the meaning of the document, though it may sort objects in it |
| Missing.TestExactly | mqtt/open_source_lib/cJSON/cJSON-1.7.15/cJSON_Utils.c:831-836 | `test` on any written place, there or not: status 0 exactly when the document has an equal value there, and 1 otherwise; a place that is not there leaves the document as it is |
| Missing.RemoveMisses | mqtt/open_source_lib/cJSON/cJSON-1.7.15/cJSON_Utils.c:887-900 | `remove` and `replace` where there is nothing: status 13, and nothing has changed |
| Missing.AddStatus | mqtt/open_source_lib/cJSON/cJSON-1.7.15/cJSON_Utils.c:959-1017 | `add`: 0, 9, 10 or 11, by what the document has at the parent place |
| Missing.MoveMisses | mqtt/open_source_lib/cJSON/cJSON-1.7.15/cJSON_Utils.c:905-930 | `move` from where there is nothing: status 5, and nothing has changed |
| Missing.MoveStatus | mqtt/open_source_lib/cJSON/cJSON-1.7.15/cJSON_Utils.c:905-1020 | `move` of something there: the status of the addition to what is left |
| Missing.CopyStatus | mqtt/open_source_lib/cJSON/cJSON-1.7.15/cJSON_Utils.c:905-1020 | `copy`: status 5 exactly when there is nothing at the source, otherwise the status of the addition |
| Missing.WholeDocument | mqtt/open_source_lib/cJSON/cJSON-1.7.15/cJSON_Utils.c:838-884 | with an empty path, `remove` leaves an invalid node, `add` and `replace` leave the new value, and without a value they fail with status 7 |
| Missing.UnknownOperation | mqtt/open_source_lib/cJSON/cJSON-1.7.15/cJSON_Utils.c:742-829 | an operation that is none of the six: status 3 |
| Missing.NoPath | mqtt/open_source_lib/cJSON/cJSON-1.7.15/cJSON_Utils.c:817-823 | without a string `path`: status 2, whatever the operation |
| Missing.AddWithoutValue | mqtt/open_source_lib/cJSON/cJSON-1.7.15/cJSON_Utils.c:935-948 | `add` without a value: status 7, and nothing has changed |
| Missing.PatchesAreAnArray | mqtt/open_source_lib/cJSON/cJSON-1.7.15/cJSON_Utils.c:1038-1056 | a patch that is no array: status 1, and nothing has changed |
| Missing.TransferWithoutSource | mqtt/open_source_lib/cJSON/cJSON-1.7.15/cJSON_Utils.c:905-913 | `copy` and `move` without a source: status 4 |
| PatchOps.Detaches | mqtt/open_source_lib/cJSON/cJSON-1.7.15/cJSON_Utils.c:430-481 | taking out a member or an item: what is handed out is what the place held, and only that is gone |
| PatchOps.Adds | mqtt/open_source_lib/cJSON/cJSON-1.7.15/cJSON_Utils.c:959-1017 | adding a member, an item in front of an index, or one at the end of an array |
| PatchOps.Copies | mqtt/open_source_lib/cJSON/cJSON-1.7.15/cJSON_Utils.c:905-1020 | `copy` puts what the source place holds at the path, a member, an index or the end of an array, and changes nothing else |
| PatchOps.Moves | mqtt/open_source_lib/cJSON/cJSON-1.7.15/cJSON_Utils.c:905-1020 | `move` takes a member or an item out of the one place and puts it at the other, member, index or end, which is resolved after the removal |
| PatchOps.CopiesToMember | mqtt/open_source_lib/cJSON/cJSON-1.7.15/cJSON_Utils.c:905-1020 | in particular, `copy` sets the member at the path to what the source place holds |
| PatchOps.MovesMember | mqtt/open_source_lib/cJSON/cJSON-1.7.15/cJSON_Utils.c:905-1020 | in particular, `move` takes the member out of the one object and sets it in the other |
| PatchOps.RenameBack | mqtt/open_source_lib/cJSON/cJSON-1.7.15/cJSON_Utils.c:905-1020 | moving a member to a free name and back restores the document up to member order |
| PatchOps.FailureChangesExactly | mqtt/open_source_lib/cJSON/cJSON-1.7.15/cJSON_Utils.c:807-1036 | an operation that fails changes the document only when it is a `replace` with a non-empty path or a `move` with a string `from`, and that path can be detached, or a `test` that reaches an unsorted object; with distinct keys, exactly then; for every document, patch and case mode |
| PatchOps.FailureMeansExactly | mqtt/open_source_lib/cJSON/cJSON-1.7.15/cJSON_Utils.c:807-1036 | with distinct keys, it changes what the document means exactly when it takes something out first |
| PatchOps.FirstFailure | mqtt/open_source_lib/cJSON/cJSON-1.7.15/cJSON_Utils.c:1038-1094 | a list that fails has a first failing operation: the result is what the operations before it made of the document, unless that operation takes something out first or is a `test` that reaches an unsorted object; with distinct keys exactly then, and the meaning changes exactly in the first case (on values, which `TestThenAdd.RunFollows` relates to the lists) |
| PatchOps.ReplaceLosesMember | mqtt/open_source_lib/cJSON/cJSON-1.7.15/cJSON_Utils.c:887-947 | such an input: a `replace` without a value fails with status 7 after the old value is gone |
| PatchOps.MoveBelowItself | mqtt/open_source_lib/cJSON/cJSON-1.7.15/cJSON_Utils.c:905-960 | another: a `move` to a place below its own source fails with status 9 after the source is gone |
| MergePatch.MergeComputesRfc | mqtt/open_source_lib/cJSON/cJSON-1.7.15/cJSON_Utils.c:1321-1378 | on trees with distinct keys, merging computes MergePatch of RFC 7396 section 2, for every target (none, or no object, included) and every patch |
| MergePatch.MergeIsRfc | mqtt/open_source_lib/cJSON/cJSON-1.7.15/cJSON_Utils.c:1321-1378 | the same in either case mode, over a vocabulary of keys the mode tells apart |
| MergePatch.GenerateThenMerge | mqtt/open_source_lib/cJSON/cJSON-1.7.15/cJSON_Utils.c:1390-1470 | no merge patch is generated exactly for two equal objects; otherwise merging it into any tree equal to `from` gives a tree equal to `to`, exactly when every null member of `to` lies in a part `from` already has |
| MergePatch.GenerateMeans | mqtt/open_source_lib/cJSON/cJSON-1.7.15/cJSON_Utils.c:1390-1470 | the generated merge patch denotes the difference of the two trees |
| MergePatch.NullFreeIsSafe | mqtt/open_source_lib/cJSON/cJSON-1.7.15/cJSON_Utils.c:1390-1470 | in particular when `to` has no null member |
| MergeOrder.MergesInOrder | mqtt/open_source_lib/cJSON/cJSON-1.7.15/cJSON_Utils.c:1334-1375 | for any object and patch without repeated names: the members the patch does not name stay in their order, and what it brings follows in the order of the patch, each value merged into the one of the same name |
| MergeOrder.GeneratedInOrder | mqtt/open_source_lib/cJSON/cJSON-1.7.15/cJSON_Utils.c:1406-1461 | a generated merge patch of two sorted lists is sorted by `strcmp`, and names nothing that neither has |
| Limits.PlainGenerateThenMerge | mqtt/open_source_lib/cJSON/cJSON-1.7.15/cJSON_Utils.c:1321-1480 | the law, merging into a copy of `from`, on trees whose keys hold no upper-case letter, `~` or `/`, with no null member in `to` |
| Limits.MergeLawExactly | mqtt/open_source_lib/cJSON/cJSON-1.7.15/cJSON_Utils.c:1406-1461 | the law holds for all trees over a vocabulary exactly when it sorts alike with and without case, in either case mode |
| Limits.CrossedFails | mqtt/open_source_lib/cJSON/cJSON-1.7.15/cJSON_Utils.c:1406-1461 | two keys that sort one way ignoring case and the other way by `strcmp` give an input on which the law fails |
| Limits.CrossedExists | mqtt/open_source_lib/cJSON/cJSON-1.7.15/cJSON_Utils.c:1406-1461 | there are such keys: a and B |
| MergeRuns.MergeInStep | mqtt/open_source_lib/cJSON/cJSON-1.7.15/cJSON_Utils.c:1321-1378 | the loop over the members of the patch computes the merged tree |
| MergeRuns.GenerateInStep | mqtt/open_source_lib/cJSON/cJSON-1.7.15/cJSON_Utils.c:1390-1470 | the generator computes the merge patch the law speaks of |
| MergeRuns.GenerateMembersInStep | mqtt/open_source_lib/cJSON/cJSON-1.7.15/cJSON_Utils.c:1406-1461 | its walk by `strcmp` over both sorted lists collects the members of that patch |
| RoundTrip.PrintThenParse | mqtt/src/cJSON.c:1075-1168 | any tree, printed formatted or not, is parsed back with members in order and repeated keys kept, exactly when its nesting is at most 1000; otherwise parsing fails |
| RoundTrip.StringBack | mqtt/src/cJSON.c:769-1017 | escaping a string and unescaping it is the identity, for every C string |
| RoundTrip.NumberBack | mqtt/src/cJSON.c:305-379 | printing and reading back a whole number of at most 15 digits is the identity |
| Numerals.NumeralParses | mqtt/src/cJSON.c:305-379 | every decimal numeral of at most 63 bytes, with or without a sign, point, fraction and signed exponent, is read to its end, and the number read, times ten to the digits behind the point less the exponent, is the whole number its digits make |
| Numerals.OnlyNumerals | mqtt/src/cJSON.c:305-379 | nothing else is read: what is taken from the input is such a numeral, and the number is the one it denotes |
| Numerals.ParsesExactly | mqtt/src/cJSON.c:305-379 | a number is read exactly when a numeral of at most 63 bytes is there |
| Numerals.PrintsCanonical | mqtt/src/cJSON.c:545-608 | a whole number is printed as its numeral without point and exponent, with a sign only when negative and no leading zero |
| Escaping.PrintsShortest | mqtt/src/cJSON.c:951-1010 | each byte of a string is printed as a form that section 7 of RFC 8259 has for it, and as a shortest one |
| Escaping.PrintsSmallLetters | mqtt/src/cJSON.c:971-1010 | hexadecimal digits are printed with small letters |
| Escaping.StringPrintsShortest | mqtt/src/cJSON.c:898-1017 | so is the whole string |
| Escaping.PlainExactly | mqtt/src/cJSON.c:925-949 | a string is printed as it is exactly when it holds no byte below 32, no quote and no backslash |
| Escaping.EveryFormParses | mqtt/src/cJSON.c:769-895 | every literal made of the forms of section 7 of RFC 8259, letter escapes and hexadecimal digits in either case included, is read as the bytes they stand for |
| Layout.FormattedIsLaidOut | mqtt/src/cJSON.c:1535-1821 | formatted text is unformatted text with blanks put in by a rule on bytes: one blank behind a comma in an array, one tab behind a colon, each member and each closing brace on a line of its own behind a tab for every bracket open there, and nothing inside literals |
| Printer.PrintBuffer.Ensure | mqtt/src/cJSON.c:439-522 | succeeds exactly when the request with its spare byte fits the limit (INT_MAX, or the given buffer); the bytes written so far are kept on every growth path |
| Printer.PrintBuffer.UpdateOffset | mqtt/src/cJSON.c:525-535 | moves the cursor to the first NUL |
| Printer.PrintBuffer.PrintString | mqtt/src/cJSON.c:898-1017 | writes the quoted, escaped string behind what is there, inside what was reserved |
| Printer.PrintBuffer.PrintNumber | mqtt/src/cJSON.c:545-608 | writes the digits and moves the cursor behind them |
| Printer.PrintBuffer.PrintValue | mqtt/src/cJSON.c:1363-1434 | for every tree, format and growth path: the buffer from the entry offset to the NUL is exactly the rendered text, everything before is unchanged, the depth is restored, success exactly when every reservation fits |
| Printer.PrintBuffer.PrintArray | mqtt/src/cJSON.c:1535-1594 | the same for an array |
| Printer.PrintBuffer.PrintObject | mqtt/src/cJSON.c:1710-1821 | the same for an object |
| Printer.CountEscapes | mqtt/src/cJSON.c:925-949 | the counted extra bytes are exactly what escaping adds |
| Printer.PrintBuffered | mqtt/src/cJSON.c:1258-1286 | the result is the rendered text, for every initial size of at least 1; NULL exactly when the text does not fit INT_MAX, the tree holds an invalid node or the size is negative |
| Printer.PrintPreallocated | mqtt/src/cJSON.c:1288-1305 | succeeds exactly when the length is at least the text length plus 2; the five bytes the header advises are always enough |
| Printer.Print | mqtt/src/cJSON.c:1183-1245 | the result is the rendered text cut to size |
| Parser.ParseBuffer.SkipBlanks | mqtt/src/cJSON.c:1034-1057 | the cursor moves over whitespace and never past the last byte |
| Parser.ParseBuffer.FindEnd | mqtt/src/cJSON.c:782-805 | the first pass finds the closing quote and counts the escapes, or the string is unterminated |
| Parser.ParseBuffer.SecondPass | mqtt/src/cJSON.c:815-873 | the unescaped text fits the size of the first pass, NUL included, for every input; the read position ends where `SecondPassEnd` says, at the closing quote or one byte behind it |
| Parser.PassesAgree | mqtt/src/cJSON.c:782-873 | when every `\u` the first pass sees has its four hexadecimal digits, the second pass, if it accepts the literal, stops exactly at the closing quote |
| Parser.StringFits | mqtt/src/cJSON.c:783-873 | the bound behind that: unescaped bytes and NUL never exceed the computed size, even when the passes disagree on where escapes start |
| Parser.PassesDisagreeExactly | mqtt/src/cJSON.c:782-873 | the second pass stops one byte behind the closing quote exactly when a `\u` literal it reads ends inside the backslashes in front of the quote, at an odd distance |
| Parser.QuoteTakenForEscaped | mqtt/src/cJSON.c:815-873 | such an input: the second pass takes the closing quote for an escaped one |
| Parser.StopsBehindQuote | mqtt/src/cJSON.c:815-873 | on that input it stops one byte behind the closing quote |
| Parser.ParseBuffer.ReadString | mqtt/src/cJSON.c:769-895 | parses a string exactly as the parsing function does |
| Parser.ParseBuffer.ReadNumber | mqtt/src/cJSON.c:305-379 | parses a number from at most 63 bytes |
| Parser.ParseBuffer.ReadValue | mqtt/src/cJSON.c:1308-1360 | the mutually recursive parser terminates, computes the parsing function, restores the depth, keeps nesting at most 1000, advances the cursor on success and leaves it inside the buffer then; on failure it is one behind the NUL exactly when the input stops before a name, as `Truncated.OverrunExactly` has it |
| Parser.ParseBuffer.ReadArray | mqtt/src/cJSON.c:1437-1532 | the same for an array |
| Parser.ParseBuffer.ReadObject | mqtt/src/cJSON.c:1597-1707 | the same for an object |
| Parser.CursorBehindNul | mqtt/src/cJSON.c:1653-1658 | the cursor itself on the smallest such input, an opening brace and nothing else: it ends behind the NUL |
| Overrun.KeyOverrun | mqtt/src/cJSON.c:1653-1658 | a name that is looked for moves the cursor behind the end exactly when only bytes up to 32 are left |
| Overrun.OverrunAtMark | mqtt/src/cJSON.c:1308-1707 | the cursor ends behind the NUL only when the last byte above 32 is an opening brace or a comma |
| Truncated.ValueWithin | mqtt/src/cJSON.c:1308-1707 | what is read in front of an opening brace or comma does not depend on what follows it |
| Truncated.OverrunExactly | mqtt/src/cJSON.c:1308-1707 | the cursor ends behind the NUL exactly when the input, without blanks at its end, ends in an opening brace or a comma and becomes a document once a member and closing brackets are added there |
| Parser.ParseBuffer.SkipMark | mqtt/src/cJSON.c:1060-1073 | skips a byte order mark when at least five bytes are there |
| Parser.ParseWithOpts | mqtt/src/cJSON.c:1075-1168 | the public function computes the parsing function, trailing bytes rejected when null termination is required; the reported end is always inside the text or at its NUL: behind the value on success, behind it or its blanks when trailing bytes are rejected, at the NUL when the cursor went past it |
| Parsed.ParsedTree | mqtt/src/cJSON.c:1075-1168 | whatever the text, a parsed tree has no invalid node, all its strings and keys are C strings, and its nesting is at most 1000 |
| Grammar.AcceptsExactly | mqtt/src/cJSON.c:1075-1168 | null-terminated parsing accepts exactly the documents of a grammar that names no parser and that nest at most 1000 deep, each as the tree the grammar gives it |
| Grammar.Unambiguous | mqtt/src/cJSON.c:1075-1168 | hence no text is two documents |
| Grammar.PrefixAccepted | mqtt/src/cJSON.c:1075-1135 | without the demand for a final NUL, an accepted text begins with a document of that tree |
| Grammar.PrefixRead | mqtt/src/cJSON.c:1075-1135 | and a text that begins with a document is accepted, unless a number goes on behind it |
| Grammar.MarkIgnored | mqtt/src/cJSON.c:1060-1073 | a byte order mark in front makes no difference |
| Literals.UnescapesExactly | mqtt/src/cJSON.c:815-873 | the second pass accepts exactly the contents that are made of plain bytes, letter escapes, `\u` escapes that are no surrogates, and surrogate pairs, and gives the bytes these stand for; only a letter escape can reach past the end |
| Literals.HexExactly | mqtt/src/cJSON.c:611-644 | the sixteen digits, in either case, and no other byte |
| Literals.CutsAtNul | mqtt/src/cJSON.c:875-885 | what is stored of a string ends in front of its first NUL |
| Parsed.ParseThenPrint | mqtt/src/cJSON.c:1075-1434 | a parsed tree of whole numbers, printed in either format and parsed again, is itself |
| Unicode.Utf8Exactly | mqtt/src/cJSON.c:710-760 | the bytes written for a code point are exactly its UTF-8 form by section 4 of RFC 3629: they decode to it, and nothing else does |
| Unicode.LiteralReads | mqtt/src/cJSON.c:648-766 | an escape, or the two of a surrogate pair, is decoded to the UTF-8 form of the scalar value it stands for |
| Unicode.AcceptedIsWellFormed | mqtt/src/cJSON.c:648-766 | whatever escape is accepted, the bytes written are well-formed UTF-8; lone surrogates never get through |
| Unicode.EscapedTextParses | mqtt/src/cJSON.c:769-895 | any text, escaped code point by code point, is parsed to its UTF-8 form, up to the first code point 0 |
| Unicode.ParseHex4InStep | mqtt/src/cJSON.c:611-644 | the digit loop computes the four-digit value, 0 for anything else |
| Unicode.EncodeUtf8 | mqtt/src/cJSON.c:743-757 | the encoding loop, last byte first, writes the UTF-8 form |
| Minify.MinifyInPlace | mqtt/src/cJSON.c:2829-2875 | in place, on every NUL-terminated input: the string becomes what the two-buffer function gives, the write position never passes the read position, nothing behind the new terminator changes |
| Minify.MinifyRound | mqtt/src/cJSON.c:2838-2870 | one round of the loop, with the same frame |
| Minify.CopyString | mqtt/src/cJSON.c:2807-2827 | a literal is copied down whole, unterminated ones to the end |
| Minify.SkipLine | mqtt/src/cJSON.c:2780-2791 | a line comment is skipped through its newline or to the end |
| Minify.SkipBlock | mqtt/src/cJSON.c:2793-2805 | a block comment is skipped through its close or to the end |
| Minify.MinifyIdempotent | mqtt/src/cJSON.c:2829-2875 | minifying twice is minifying once, on every input |
| Comments.BlockComment | mqtt/src/cJSON.c:2793-2805 | a block comment disappears, and what follows it is minified as if it had not been there |
| Comments.OpenBlockComment | mqtt/src/cJSON.c:2793-2805 | one that is not closed takes everything to the end |
| Comments.LineComment | mqtt/src/cJSON.c:2780-2791 | the same for a line comment and its newline |
| Comments.OpenLineComment | mqtt/src/cJSON.c:2780-2791 | and for a line comment on the last line |
| Comments.BlankGoes | mqtt/src/cJSON.c:2840-2848 | blank, tab, carriage return and newline disappear outside literals |
| Comments.LoneSlashGoes | mqtt/src/cJSON.c:2850-2861 | so does a slash that begins no comment |
| Comments.OtherStays | mqtt/src/cJSON.c:2863-2870 | every other byte but a quote stays |
| Comments.LiteralStays | mqtt/src/cJSON.c:2807-2827 | a literal stays as it is, blanks and comments in it included, when its closing quote is the first that no backslash precedes |
| Comments.OpenLiteralStays | mqtt/src/cJSON.c:2807-2827 | and so does one that is not closed |
| MinifyRender.MinifyOfFormatted | mqtt/src/cJSON.c:2807-2875 | minifying the formatted text gives the unformatted text exactly when no key, and no string that anything but closing brackets follows, ends in a backslash |
| MinifyRender.Literal | mqtt/src/cJSON.c:2807-2827 | what the minifier does with a rendered literal: it leaves it at the closing quote, or stays inside when the text ends in a backslash |
| MinifyRender.MinifiedTextParses | mqtt/src/cJSON.c:2829-2875 | printing, minifying and parsing such a tree gives it back |
| Dictionary.Dictionary.constructor | mqtt/src/dictionary.c:149-166 | a new dictionary is empty |
| Dictionary.ComputeHash | mqtt/src/dictionary.c:115-135 | the loop computes the 32-bit hash, signed characters included |
| KnownHashes.HashValues | mqtt/src/dictionary.c:115-135 | it is Jenkins's one-at-a-time hash: its known values on three texts |
| KnownHashes.SignExtended | mqtt/src/dictionary.c:115-135 | a byte above 127 counts as its sign extension to 32 bits |
| Dictionary.Dictionary.FindSlot | mqtt/src/dictionary.c:209-227 | the search with its hash pre-check finds the slot of the key exactly when the map has it |
| Dictionary.Dictionary.Get | mqtt/src/dictionary.c:209-227 | answers like the map, with the default for missing keys |
| Dictionary.Dictionary.Grow | mqtt/src/dictionary.c:68-101 | doubles the arrays and keeps the map and the count |
| Dictionary.Dictionary.FindFree | mqtt/src/dictionary.c:283-300 | the search from n on, around the end, ends at an empty slot, holes included |
| Dictionary.FreeSlotExists | mqtt/src/dictionary.c:283-300 | the counting argument: fewer occupied slots than slots means an empty one |
| Dictionary.Dictionary.Set | mqtt/src/dictionary.c:255-302 | updates the map at the key, growing when full; a NULL key is refused |
| Dictionary.Dictionary.Unset | mqtt/src/dictionary.c:315-349 | removes the key from the map |
| Dictionary.Run | mqtt/src/dictionary.c:149-349 | any run of new, set, unset and get answers exactly like a map from keys to optional values |
| Dictionary.SettingNullIsNotDeleting | mqtt/src/dictionary.c:240-252 | setting a key to NULL and deleting it answer the next lookup alike exactly when the default is NULL; the comment says they are equivalent |

## Left out

- Floating point: numbers are exact reals and the laws range over whole numbers of at most 15 digits, where `%1.15g` prints every digit; rounding of `strtod`, `%1.17g`, NaN and infinity are not modelled. The epsilon comparison is modelled in exact arithmetic.
- Allocation failure, allocator hooks, error pointers and locale.
- Raw nodes, constant keys, and sharing through reference nodes; `Duplicate` clears the reference bit.
- The nodes the parser allocates and links: the parsed tree is a value, and the printer walks a value.
- The order in which `compare_json`, `create_patches` and `generate_merge_patch` leave the children of the trees they sort in place: the functions take and return trees as values, so a nested object inside a generated merge patch may list its members in another order than the code's. Every law about them is up to member order, but for `MergeOrder.GeneratedInOrder` on one level, and about a copy of `from`: `LostAdditions.GeneratedAdditionLost` shows what happens on `from` itself. For `compare_json` in a patch, the order is modelled (`CompareRuns.CompareInPlace`).
- PatchRuns.Document.Apply: an append to an object whose recorded tail has itself been taken out loses the item here; in the code that node may be freed, or part of another list by then. A `move` whose `from` is not a string gives status 5, where the code reads a NULL `valuestring`.
- PatchRuns.Document.ApplyEach: the same two cases.
- Patch.ApplyPatch: a `move` whose `from` is not a string reads a NULL `valuestring` in the code; the model returns status 5, as the code does for `copy`.
- The member name an array item keeps when it has been moved out of an object.
- The shortcut of `cJSON_Compare` for two identical pointers; it differs from the modelled comparison only on trees with repeated keys or invalid nodes.
- `cJSON_ParseWithLength` on buffers without a final NUL, and `cJSON_PrintBuffered` with an initial size of 0.
- Printer.PrintBuffered: the initial size must not be 0.
- Parser.ParseWithOpts: the position reported for an error other than a missing name or rejected trailing bytes is only shown to lie in the text.
- The freeing of detached, replaced and merged nodes; `cJSON_Delete` has no contents to reason about here.
- `iniparser.c`, sockets, SQLite, MQTT publishing, sensors, logging: little logic of their own.
- The `Create…` and `Is…` one-liners, which would only add easy members.

# Verified models of a device stack's data handling

The repository combines an embedded Linux board's drivers, a device server, desktop tools and two JSON
libraries. This project models the parts that must not lose, reorder or misread data, and proves what they
promise, in Dafny 4.11. `dafny verify dfyconfig.toml` checks everything.

- **cJSON trees and text** (`CText`, `JsonTree`, `JsonText`, `JsonPrinter`, `Strtod`, `JsonGrammar`, `JsonEscapes`,
  `JsonSyntax`, `JsonAccepted`, `JsonParser`, `JsonRoundTrip`, `ChildList`). `Json` is the tree; `Denote` is what it
  means, with objects as maps. The printer works in a growing buffer, the parser moves an offset over the text,
  child lists are linked nodes on the heap. `JsonSyntax.Syntax` is a JSON text by its parts; the parser reads all
  of these texts and nothing else.
- **cJSON Utils** (`NameSort`, `SortList`, `Comparison`, `JsonPointer`, `JsonPatch`, `PatchOperations`,
  `PatchGenerator`, `MemberEdit`, `PatchLaw`, `DecodedNames`, `PatchConverse`, `MergePatch`): JSON Pointer (RFC 6901), JSON Patch
  (RFC 6902) and JSON Merge Patch (RFC 7396), with the in-place merge sort on the heap.
- **CSI capture** (`CsiCapture`): the class has the driver's lists, registers and counters; `Pipeline` is the
  rotation without them, two places the hardware fills in turn.
- **UART transmit side** (`UartTransmit`): the circular buffer, PIO and DMA, the RS485 states.
- **Device frames** (`Crc16`, `FrameProtocol`, `FrameReceiver`, `ProtocolQueue`).
- **jsoncpp** (`JsoncppNumber`, `JsoncppOrder`, `JsoncppString`, `JsoncppLiteral`).
- Shared: `Wrappers`, `Sequences`, `Octets`, `DecimalText`, `Unicode`.

A method is proved against a function of its inputs or of the old state; the lemmas say what the source
promises about that function. Calls to the operating system, the hardware and other libraries are parameters:
`Hardware`, `Status`, the chunks a device delivers.

## Where the code does not do what it is meant to

The model follows the code. In these places a property one expects is false. The members named give a failing
input, or the whole failing family, and when the code meets the property: exactly, or, where that is said, by a
condition on the input that is enough.

- `decode_pointer_inplace` copies no ordinary byte, so a name with a tilde survives a patch only in special
  cases: exactly `JsonPointer.DecodeUndoesEncode`, `PatchLaw.AddedName`. For whole patches of the default pair:
  exactly `PatchConverse.PatchLawExactly`. In the case-sensitive mode the guard of `PatchLaw.PatchRoundTrip` is
  enough; that it is necessary is not proved.
- `decode_array_index_from_pointer` tests the first byte of the token instead of the current one, and takes the
  empty token: inputs in `JsonPointer.MalformedIndices`, exactly `JsonPointer.IndexFollowsRfc`.
- `create_patches` has no case for raw nodes: exactly `PatchLaw.PatchReachesTarget`.
- `detach_path` ignores case in both modes: exactly `PatchLaw.DetachTakes`. So the case-sensitive patch can miss
  its target: the family `PatchLaw.WrongMemberDetached`. The guard of `PatchLaw.PatchRoundTrip` in this mode,
  `InReach`, is enough but not necessary: two members whose names differ only in case may also be taken out in
  the wrong order and both be gone in the end.
- `sort_object` leaves the head's prev stale or null, and appending relies on it: exactly
  `ChildList.Children.AddAfterSort`, by a test on the names before sorting. A TEST patch sorts the document this
  way, see `JsonPatch.Document.ApplyPatches` under "Left out".
- `generate_merge_patch` sorts one way and compares another: the input in `MergePatch.MixedCaseLosesMember`. When
  the patch of the default generator is right: exactly `MergePatch.GeneratesExactly`. For merging it, and for the
  other pairs, that guard is enough but not necessary: a null that the patch sets too early does no harm if the
  member is set after it. Null members cannot be set by a merge patch: exactly the right-hand side of
  `MergePatch.MergeRoundTrip`.
- `apply_patch` does not undo: a replace or a move that fails after its item was taken out loses the item: exactly
  `PatchOperations.AfterFailure`.
- `parse_hex4` answers 0 for a malformed digit, so an escape with one ends the string instead of being refused:
  `JsonEscapes.MalformedDigit`, exactly `JsonEscapes.LiteralRead` and `JsonEscapes.LiteralAccepted`. Numbers longer
  than 63 bytes are cut: `JsonSyntax.LongNumberCut`. A byte order mark is passed over only if more than one byte
  follows it: `JsonSyntax.ShortMark`.
- `parse_string` reads its first byte without a test: the input in `JsonGrammar.OpenObjectOverruns`, exactly
  `JsonParser.ParseWithLength`, and only behind a comma at the very end, `JsonGrammar.OverrunNeedsComma`.
- `imx_uart_start_rx` leaves the loop-back on, so after a transmission a looped-back receiver stays deaf: exactly
  `UartTransmit.ImxPort.StopTx`. A second `imx_uart_start_tx` cuts the delay before sending short; how long a
  delay lasts is not part of this model.
- The CSI driver means to skip three frames after a start, but its turn stands still meanwhile, so six alternating
  reports pass: `CsiCapture.AlternatingRun`.
- The frame receiver tests the size of the last chunk instead of the total: exactly
  `FrameReceiver.GoodFrameArrives`, and inside a longer stream `FrameReceiver.FrameInStream`. Its buffer size
  passes through eight bits, and a multiple of 256 makes it ask for 65535 bytes: exactly
  `FrameReceiver.MultipleOf256Overruns`.
- The CRC is sent high byte first, so a change across the border of body and CRC can escape: exactly
  `FrameProtocol.StraddlingChange`, and for every frame with a body `FrameProtocol.StraddlingEscapes`.
- The command queue tests full and empty outside its lock: exactly `ProtocolQueue.SafeExactly`.
- jsoncpp's ASCII output replaces malformed UTF-8: exactly `JsoncppLiteral.AsciiBack`. Its reader takes any
  escape for the second half of a pair: exactly `JsoncppLiteral.TokenIs`. A lone minus sign decodes as
  0: `JsoncppNumber.DecodeNumber`.

## Model

| member | source | states |
|---|---|---|
| `CText.CompareStrings` | thirdparts/cJSON-master/cJSON_Utils.c:83-109 | The byte loop decides exactly the order of the names, folded or not, and answers 0 exactly for equal names |
| `CText.StrCmpTransitive` | thirdparts/cJSON-master/cJSON_Utils.c:83-109 | The order of names is transitive |
| `CText.StrCmpZero` | thirdparts/cJSON-master/cJSON_Utils.c:83-109 | Only equal strings compare as 0 |
| `CText.StrCmpInOrder` | thirdparts/cJSON-master/cJSON_Utils.c:83-109 | After a common beginning a string that goes on is the greater one, and otherwise the greater byte decides |
| `CText.CapitalsFold` | thirdparts/cJSON-master/cJSON_Utils.c:83-109 | Folding changes exactly the capital letters, each to its small one |
| `JsonTree.DenoteFind` | thirdparts/cJSON-master/cJSON.c:1880-1910 | Looking a name up finds the value the members mean under that name, or nothing exactly if the meaning has no such key |
| `JsonTree.DistinctExact` | thirdparts/cJSON-master/cJSON.c:1880-1910 | Names that differ when case is ignored also differ when it is not, at every depth |
| `JsonPointer.PointerEncodedLength` | thirdparts/cJSON-master/cJSON_Utils.c:157-170 | The predicted length is the length of the encoding, for every name |
| `JsonPointer.EncodeStringAsPointer` | thirdparts/cJSON-master/cJSON_Utils.c:173-196 | Writes exactly the predicted bytes and a terminator and touches no other byte of the buffer |
| `JsonPointer.EncodesAsRfc` | thirdparts/cJSON-master/cJSON_Utils.c:173-196 | The encoding of section 3 of RFC 6901: ~0 for a tilde, ~1 for a slash, any other byte as it is |
| `JsonPointer.DecodePointerInPlace` | thirdparts/cJSON-master/cJSON_Utils.c:359-390 | The in-place loop computes the decoder of the model, misplaced writes included |
| `JsonPointer.DecodeUndoesEncode` | thirdparts/cJSON-master/cJSON_Utils.c:359-390 | Decoding gives an encoded name back if and only if the name has no slash and every byte that needs no escape keeps its place |
| `JsonPointer.PlainNamesDecodeBack` | thirdparts/cJSON-master/cJSON_Utils.c:359-390 | Names without tilde and slash are encoded and decoded unchanged |
| `JsonPointer.MatchEncoded` | thirdparts/cJSON-master/cJSON_Utils.c:120-154 | A name matches an encoded token exactly when the names are equal, up to case if case is ignored |
| `JsonPointer.FindTokenEncoded` | thirdparts/cJSON-master/cJSON_Utils.c:301-346 | Searching the members for an encoded token finds the member that searching for the name finds |
| `JsonPointer.DecodeDecimal` | thirdparts/cJSON-master/cJSON_Utils.c:274-299 | The index decoder inverts the decimal form of every number up to the width of size_t, whatever token follows |
| `JsonPointer.DecodeArrayIndex` | thirdparts/cJSON-master/cJSON_Utils.c:274-299 | The digit loop, which tests the first byte of the token where it should test the current one, answers the wrapped value of an accepted token and refuses every other |
| `JsonPointer.DecodeIndexIs` | thirdparts/cJSON-master/cJSON_Utils.c:274-299 | What the decoder answers for every token, malformed ones included |
| `JsonPointer.IndexAcceptedExactly` | thirdparts/cJSON-master/cJSON_Utils.c:274-299 | A token is taken for an index if and only if it is empty, or begins with a digit, with 0 only alone, and has no byte below the digit 0 |
| `JsonPointer.IndexFollowsRfc` | thirdparts/cJSON-master/cJSON_Utils.c:274-299 | The answer is that of section 4 of RFC 6901 if and only if the token is an index below 2^64, or is none and the decoder refuses it too |
| `JsonPointer.MalformedIndices` | thirdparts/cJSON-master/cJSON_Utils.c:274-299 | 1a is taken for 59 and the empty token for 0, so the pointers /1a and / select elements of an array |
| `JsonPointer.MemberForToken` | thirdparts/cJSON-master/cJSON_Utils.c:301-346 | The member loop finds the first matching member, or the end |
| `JsonPointer.SkipToken` | thirdparts/cJSON-master/cJSON_Utils.c:301-346 | The pointer moves to the next slash or the end |
| `JsonPointer.GetItemFromPointer` | thirdparts/cJSON-master/cJSON_Utils.c:301-346 | The loop over the pointer reaches exactly the node the recursive walk reaches, or none |
| `JsonPointer.LocateItem` | thirdparts/cJSON-master/cJSON_Utils.c:301-346 | A decimal token selects the element with that index |
| `JsonPointer.LocateMember` | thirdparts/cJSON-master/cJSON_Utils.c:301-346 | An encoded name selects the member with that name |
| `JsonPointer.PointerRoundTrip` | thirdparts/cJSON-master/cJSON_Utils.c:198-259 | From any node on the way, the pointer built for a node below it leads to that node |
| `JsonPointer.FindThenGet` | thirdparts/cJSON-master/cJSON_Utils.c:198-259 | For every node of a tree with distinct names, slashes and tildes allowed, a pointer is found and looking it up returns that node |
| `NameSort.SortPermutes` | thirdparts/cJSON-master/cJSON_Utils.c:484-593 | Sorting keeps every entry as often as it occurred |
| `NameSort.SortOrders` | thirdparts/cJSON-master/cJSON_Utils.c:484-593 | Every list comes out ordered by name, repeated names or not |
| `NameSort.SortStrict` | thirdparts/cJSON-master/cJSON_Utils.c:484-593 | With distinct names it comes out strictly ascending |
| `NameSort.StrictUnique` | thirdparts/cJSON-master/cJSON_Utils.c:604-690 | A strictly ascending list is determined by its set of names |
| `NameSort.MergeLast` | thirdparts/cJSON-master/cJSON_Utils.c:538-572 | A merge ends with the later of the two last entries, the first list's on a tie |
| `NameSort.FirstStays` | thirdparts/cJSON-master/cJSON_Utils.c:484-593 | The first entry is still first after sorting if and only if its name is strictly before all others |
| `NameSort.LastStays` | thirdparts/cJSON-master/cJSON_Utils.c:484-593 | The last entry is still last if and only if its name is strictly after all others |
| `SortList.IsAscending` | thirdparts/cJSON-master/cJSON_Utils.c:484-511 | The first loop answers whether the list is strictly ascending |
| `SortList.FindMiddle` | thirdparts/cJSON-master/cJSON_Utils.c:513-525 | The two-speed walk stops at the middle node |
| `SortList.SplitList` | thirdparts/cJSON-master/cJSON_Utils.c:513-532 | Cutting at the middle leaves two well formed lists with all nodes |
| `SortList.MergeStep` | thirdparts/cJSON-master/cJSON_Utils.c:538-572 | One turn moves the smaller head, the second list's on a tie, and keeps all three lists linked |
| `SortList.MergeLoop` | thirdparts/cJSON-master/cJSON_Utils.c:538-572 | The loop ends with one list used up and the rest of the merge still to come |
| `SortList.MergeLists` | thirdparts/cJSON-master/cJSON_Utils.c:538-593 | The relinked chain is the merge of the two sequences, null-ended, with every later prev naming its predecessor |
| `SortList.SortInPlace` | thirdparts/cJSON-master/cJSON_Utils.c:484-593 | The chain runs through the same nodes in sorted order; the head keeps its prev only if it was the head before, else it is null |
| `ChildList.Children.AddItemToArray` | thirdparts/cJSON-master/cJSON.c:1956-1987 | Appends if and only if the head's prev names the tail; with a null prev it reports success and adds nothing, with any other it cuts off what follows that node |
| `ChildList.Children.GetArrayItem` | thirdparts/cJSON-master/cJSON.c:1851-1868 | The node at the index, or null behind the end |
| `ChildList.Children.DetachItemViaPointer` | thirdparts/cJSON-master/cJSON.c:2187-2221 | The list stays well formed without the node, which then points nowhere |
| `ChildList.Children.DetachItemFromArray` | thirdparts/cJSON-master/cJSON_Utils.c:393-427 | Removes the element at an index, or changes nothing if there is none |
| `ChildList.Children.InsertBefore` | thirdparts/cJSON-master/cJSON.c:2279-2289 | Hooks a node in before another, at the head too, and the list stays well formed |
| `ChildList.Children.InsertItemInArray` | thirdparts/cJSON-master/cJSON.c:2263-2290 | Inserts at an index and appends behind the end |
| `ChildList.Children.InsertItemStrictly` | thirdparts/cJSON-master/cJSON_Utils.c:693-728 | Inserts at an index up to the length and fails, changing nothing, beyond it |
| `ChildList.Children.ReplaceItemViaPointer` | thirdparts/cJSON-master/cJSON.c:2292-2339 | Updates the sequence at the node's place, for a first, last, only or middle node and for the node itself |
| `ChildList.Children.ReplaceItemInArray` | thirdparts/cJSON-master/cJSON.c:2341-2349 | Updates the element at an index or fails, changing nothing |
| `ChildList.EndsStay` | thirdparts/cJSON-master/cJSON_Utils.c:595-602 | Both ends of the child list stay in place if and only if the first name is strictly before and the last strictly after all others |
| `ChildList.Children.SortObject` | thirdparts/cJSON-master/cJSON_Utils.c:595-602 | The sorted chain is sound, and the head's prev names the tail if and only if the first name was strictly before all others and the last strictly after all others |
| `ChildList.Children.AddAfterSort` | thirdparts/cJSON-master/cJSON_Utils.c:595-602 | Adding to a sorted object keeps all children and the new one if and only if the names of the unsorted list satisfied that condition |
| `ChildList.Children.Execute` | thirdparts/cJSON-master/cJSON.c:1956-2349 | Each call refines its operation on the sequence of children, and what it takes out is linked to nothing |
| `ChildList.Children.Run` | thirdparts/cJSON-master/cJSON.c:1956-2349 | Any run of append, detach, insert and replace leaves a well formed list of exactly the nodes the sequence operations leave |
| `ChildList.InsertThenDetach` | thirdparts/cJSON-master/cJSON_Utils.c:693-728 | Detaching what was just inserted gives the old list back |
| `ChildList.ReplaceAsTwo` | thirdparts/cJSON-master/cJSON.c:2292-2339 | Replacing is detaching and inserting at the same place |
| `Comparison.SortedMeaning` | thirdparts/cJSON-master/cJSON_Utils.c:595-602 | Sorting the members of an object does not change what it means |
| `Comparison.CompareTrees` | thirdparts/cJSON-master/cJSON_Utils.c:604-690 | The recursion with its loops computes the comparison of the model, sorting both objects and stopping at the first difference |
| `Comparison.CompareItemLists` | thirdparts/cJSON-master/cJSON_Utils.c:635-653 | The loop over two arrays compares element by element and then the lengths |
| `Comparison.CompareMemberLists` | thirdparts/cJSON-master/cJSON_Utils.c:655-683 | The loop over two sorted objects compares names and values side by side and then the lengths |
| `Comparison.CompareMembersIs` | thirdparts/cJSON-master/cJSON_Utils.c:650-686 | The side-by-side walk asks for equal length and, place by place, equal names and equal values |
| `Comparison.CompareDecides` | thirdparts/cJSON-master/cJSON_Utils.c:604-690 | With distinct names compare_json is true exactly for trees of equal meaning, member order and raw texts apart |
| `Comparison.SameWithoutRaw` | thirdparts/cJSON-master/cJSON_Utils.c:604-690 | Without raw nodes that relation is equality |
| `JsonPatch.Document.ApplyPatches` | thirdparts/cJSON-master/cJSON_Utils.c:1038-1094 | A patch list that is no array gives status 1 and changes nothing; otherwise the patches are applied in turn up to the first failure; what one patch does the rows of PatchOperations say |
| `JsonPatch.DetachBelow` | thirdparts/cJSON-master/cJSON_Utils.c:430-481 | Detaching on a path through a child is detaching inside that child and leaves all else alone |
| `JsonPatch.AddBelow` | thirdparts/cJSON-master/cJSON_Utils.c:967-1030 | Adding on a path through a child is adding inside that child, with its status |
| `JsonPatch.ApplyBelow` | thirdparts/cJSON-master/cJSON_Utils.c:807-1036 | Every generated operation on a path through a child acts inside that child only |
| `PatchOperations.TestDecides` | thirdparts/cJSON-master/cJSON_Utils.c:831-836 | A test leaves the document alone and gives 0 if and only if the pointer reaches a node that means the value, raw texts apart; else 1 |
| `PatchOperations.TestBelow` | thirdparts/cJSON-master/cJSON_Utils.c:831-836 | A test on a path through a child tests inside that child |
| `PatchOperations.MoveMember` | thirdparts/cJSON-master/cJSON_Utils.c:905-1030 | Moving a member k to j turns the fields m into m without k and with j bound to m[k]; without a member k the status is 5 and nothing changes |
| `PatchOperations.CopyMember` | thirdparts/cJSON-master/cJSON_Utils.c:905-1030 | Copying turns m into m with j bound to m[k], k kept; without a member k the status is 5 |
| `PatchOperations.MoveItem` | thirdparts/cJSON-master/cJSON_Utils.c:905-1030 | Moving an element puts it where the index says among the others; for an index behind their end the status is 10 and the element is gone |
| `PatchOperations.CopyItem` | thirdparts/cJSON-master/cJSON_Utils.c:905-1030 | Copying an element inserts it at the index as well, or gives status 10 and changes nothing |
| `PatchOperations.CopyIsAdd` | thirdparts/cJSON-master/cJSON_Utils.c:905-1030 | A copy is an add of what the other pointer reaches, wherever that is; over the root it fails with 9 |
| `PatchOperations.MoveBelow` | thirdparts/cJSON-master/cJSON_Utils.c:905-1030 | A move inside a child acts in that child only |
| `PatchOperations.CopyBelow` | thirdparts/cJSON-master/cJSON_Utils.c:905-1030 | And so does a copy |
| `PatchOperations.MoveBetween` | thirdparts/cJSON-master/cJSON_Utils.c:905-1030 | A move from one child into another changes these two as a removal and an add would |
| `PatchOperations.AfterFailure` | thirdparts/cJSON-master/cJSON_Utils.c:889-1036 | A failed operation leaves the document as it was if and only if it was no replace or move that had already taken its item out; that is not undone |
| `PatchOperations.AddToContainer` | thirdparts/cJSON-master/cJSON_Utils.c:980-1030 | Adding at any token without a tilde: to an array at the dash, at an accepted index up to the length, else 11 for a malformed index and 10 beyond the end; to what is no container 9 |
| `PatchOperations.TakeFromContainer` | thirdparts/cJSON-master/cJSON_Utils.c:430-481 | detach_path takes an element at an accepted index below the length, a member whose name matches, and else nothing |
| `PatchOperations.RootOperations` | thirdparts/cJSON-master/cJSON_Utils.c:839-887 | The empty path: add and replace set the root, remove leaves an invalid node with status 0 |
| `PatchOperations.StatusSays` | thirdparts/cJSON-master/cJSON_Utils.c:807-1036 | When each status is given: 3, 4, 5, 7, 13 and 1, each with its exact condition, and no others but 0, 9, 10 and 11 |
| `PatchOperations.MalformedPatch` | thirdparts/cJSON-master/cJSON_Utils.c:817-829 | Status 2 exactly if the path is missing or no string, 3 exactly if the operation is; then nothing changes |
| `PatchOperations.FieldMeans` | thirdparts/cJSON-master/cJSON_Utils.c:730-739 | The fields of a patch are looked up by key, so case is ignored in them in the mode that ignores it |
| `PatchOperations.OperationNames` | thirdparts/cJSON-master/cJSON_Utils.c:742-783 | Exactly the six names in lower case are operations |
| `PatchGenerator.ApplyComposed` | thirdparts/cJSON-master/cJSON_Utils.c:1096-1134 | Reading the fields of a composed patch object back gives the operation, path and value it was composed from, for whole patch lists |
| `PatchGenerator.ApplyInTwo` | thirdparts/cJSON-master/cJSON_Utils.c:1038-1094 | A patch list works as its front and then, if that succeeds, its back |
| `PatchGenerator.PatchArray.Add` | thirdparts/cJSON-master/cJSON_Utils.c:1096-1134 | Appends one patch object with operation, path with encoded suffix, and value if there is one |
| `PatchGenerator.PatchArray.CreatePatches` | thirdparts/cJSON-master/cJSON_Utils.c:1141-1279 | The recursion with its loops appends to the patch array exactly the edits the law is proved about, and changes nothing already there |
| `PatchGenerator.PatchArray.CreateItemPatches` | thirdparts/cJSON-master/cJSON_Utils.c:1170-1213 | The loops over two arrays: one step per common element, removals at one index, appends with the dash |
| `PatchGenerator.PatchArray.CreateMemberPatches` | thirdparts/cJSON-master/cJSON_Utils.c:1215-1272 | The walk over two sorted objects: recursion for equal names, removals and additions for the others |
| `PatchGenerator.EditsMove` | thirdparts/cJSON-master/cJSON_Utils.c:1141-1279 | The edits for a subtree are the edits for a root, moved below the path |
| `PatchGenerator.EditsShape` | thirdparts/cJSON-master/cJSON_Utils.c:1141-1279 | The edits for two trees are one replacement of the root exactly where the generator replaces it, and lie strictly below it everywhere else |
| `PatchGenerator.EmptyPatchExactly` | thirdparts/cJSON-master/cJSON_Utils.c:1276-1279 | The generated patch is empty if and only if the two trees mean the same, raw texts apart |
| `PatchGenerator.ApplyUnder` | thirdparts/cJSON-master/cJSON_Utils.c:1141-1279 | Edits below a child change that child as they would change it alone |
| `PatchLaw.ItemWalk` | thirdparts/cJSON-master/cJSON_Utils.c:1166-1219 | The edits of the array walk turn the array into its counterpart: changed elements, then removals at one index, then appends |
| `PatchLaw.MemberWalk` | thirdparts/cJSON-master/cJSON_Utils.c:1221-1275 | The edits of the walk over two sorted member lists change, remove and add exactly the keys that differ |
| `PatchLaw.PatchRoundTrip` | thirdparts/cJSON-master/cJSON_Utils.c:1141-1279 | Applying the generated patch never fails, and the result means the target except where a raw node meets a raw node, for any two trees in which the names of members taken out and of members added decode back, pair by pair; names the patch only walks through may be any. In the case-sensitive mode a member taken out must come behind no other one of its name, case apart |
| `PatchLaw.DistinctInReach` | thirdparts/cJSON-master/cJSON_Utils.c:430-481 | Names that differ when case is ignored always satisfy that condition |
| `PatchLaw.DetachTakes` | thirdparts/cJSON-master/cJSON_Utils.c:430-481 | detach_path takes the member with the exact name if and only if no earlier member has that name, case apart |
| `PatchLaw.WrongMemberDetached` | thirdparts/cJSON-master/cJSON_Utils.c:1221-1275 | Where the condition fails: for any two names equal up to case the patch that should remove the second removes the first, reports success and misses the target |
| `PatchLaw.WrongMemberExample` | thirdparts/cJSON-master/cJSON_Utils.c:1221-1275 | The source with A and a and the target with A alone are such a case |
| `PatchLaw.PatchReachesTarget` | thirdparts/cJSON-master/cJSON_Utils.c:1276-1277 | Under the same condition the result is the target if and only if no raw node of the source meets a raw node with another text |
| `PatchLaw.BlendIsTarget` | thirdparts/cJSON-master/cJSON_Utils.c:1276-1277 | The exception for raw nodes vanishes exactly in that case |
| `PatchLaw.AddedName` | thirdparts/cJSON-master/cJSON_Utils.c:1001-1012 | Adding a member by patch stores the decoded name, which is the name if and only if it decodes back |
| `DecodedNames.LandingIs` | thirdparts/cJSON-master/cJSON_Utils.c:359-390 | Byte by byte, what the in-place decoder makes of an encoded name |
| `DecodedNames.LandsAtHome` | thirdparts/cJSON-master/cJSON_Utils.c:359-390 | A patch that mentions a name acts on that name, case apart, if and only if the name decodes back |
| `DecodedNames.NoCycles` | thirdparts/cJSON-master/cJSON_Utils.c:359-390 | Decoding never permutes names: if every one of some names is the decoded form of one of them, each is its own |
| `PatchConverse.RunExplained` | thirdparts/cJSON-master/cJSON_Utils.c:1221-1275 | Whatever the names: if the patch for two objects applies, a key comes, goes or changes its value only by an edit for a name that decodes to it |
| `PatchConverse.NamesDecode` | thirdparts/cJSON-master/cJSON_Utils.c:1221-1275 | If it also reaches the target, the names taken out and added all decode back |
| `PatchConverse.NestedLawful` | thirdparts/cJSON-master/cJSON_Utils.c:1215-1245 | And then all members of equal name satisfy the patch law as pairs of their own |
| `PatchConverse.PatchLawExactly` | thirdparts/cJSON-master/cJSON_Utils.c:1276-1277 | For all trees with distinct names the patch of the default pair reaches its target with status 0, raw texts apart, if and only if the names taken out and added decode back in every pair of objects compared |
| `MergePatch.MergeInto` | thirdparts/cJSON-master/cJSON_Utils.c:1321-1379 | The loop over the patch members computes the merge, in the order of the members |
| `MergePatch.MergeIsRfc` | thirdparts/cJSON-master/cJSON_Utils.c:1321-1379 | For distinct names merge_patch computes the MergePatch function of section 2 of RFC 7396, member order apart, and keeps names distinct |
| `MergePatch.GenerateMergePatch` | thirdparts/cJSON-master/cJSON_Utils.c:1391-1471 | The walk with its nested calls computes the patch members the laws are proved about, and null exactly if there are none |
| `MergePatch.GenerateMeaning` | thirdparts/cJSON-master/cJSON_Utils.c:1391-1471 | Where, pair by pair of objects, the walk passes a member alone only if the other object has none of its name, no patch is produced only for equal trees, and otherwise it means the difference of the meanings, in either mode of the generator and of the merge |
| `MergePatch.GeneratesExactly` | thirdparts/cJSON-master/cJSON_Utils.c:1391-1471 | For the default generator that condition is exact: on all trees with distinct names it produces the difference if and only if the condition holds |
| `MergePatch.OrdersMeet` | thirdparts/cJSON-master/cJSON_Utils.c:1423-1458 | The condition holds for two objects whose names strcmp orders as their keys are ordered |
| `MergePatch.AgreeingMergeable` | thirdparts/cJSON-master/cJSON_Utils.c:1423-1458 | It holds for any two trees whose names all come from one set on which both orders agree |
| `MergePatch.MergeGenerated` | thirdparts/cJSON-master/cJSON_Utils.c:1391-1471 | On values, merging the generated patch gives the target if and only if no null member would have to be set |
| `MergePatch.MergeRoundTrip` | thirdparts/cJSON-master/cJSON_Utils.c:1391-1471 | Under the same condition, for the default pair, the case-sensitive pair and both mixed pairs: a generated patch merged into a duplicate of the source gives the target if and only if no null member has to be set; the case-sensitive pair needs no condition on the order of names at the top level |
| `MergePatch.CompareModes` | thirdparts/cJSON-master/cJSON_Utils.c:604-690 | Where no name is, up to case only, a name of the object it meets, compare_json gives the same answer in both modes |
| `MergePatch.SameModes` | thirdparts/cJSON-master/cJSON_Utils.c:604-690 | There two trees mean the same with case or ignoring it |
| `MergePatch.ComparesAs` | thirdparts/cJSON-master/cJSON_Utils.c:1423-1458 | compare_json decides equality of the meanings in its own mode for all distinct names, and in the other mode for such names, raw texts apart |
| `MergePatch.LowerAgrees` | thirdparts/cJSON-master/cJSON_Utils.c:1423-1458 | On names without upper-case letters both orders agree |
| `MergePatch.MixedCaseLosesMember` | thirdparts/cJSON-master/cJSON_Utils.c:1423-1458 | Where the condition fails the default pair can remove a member the target has: a concrete pair of objects |
| `JsonText.PrintCharsAppend` | thirdparts/cJSON-master/cJSON.c:963-1015 | Escaping works byte by byte, so it distributes over concatenation |
| `JsonText.RawVerbatim` | thirdparts/cJSON-master/cJSON.c:1408-1425 | A tree with raw nodes prints as the tree their texts spell out |
| `JsonText.SyntaxBytes` | thirdparts/cJSON-master/cJSON.c:1367-1438 | The words null, true and false and the punctuation are those of RFC 8259 |
| `JsonPrinter.CountEscapes` | thirdparts/cJSON-master/cJSON.c:926-960 | The counting pass finds exactly by how much the escaped text outgrows the string |
| `JsonPrinter.PrintBuffer.Ensure` | thirdparts/cJSON-master/cJSON.c:439-522 | Grows the buffer, keeping its text, exactly when the request fits below INT_MAX and the buffer may grow; success leaves room for the bytes and a terminator |
| `JsonPrinter.PrintBuffer.UpdateOffset` | thirdparts/cJSON-master/cJSON.c:525-535 | The offset moves to the terminator of the text just written |
| `JsonPrinter.PrintBuffer.WriteNumber` | thirdparts/cJSON-master/cJSON.c:545-612 | The decimal text of a 32-bit integer follows what was written |
| `JsonPrinter.PrintBuffer.WriteString` | thirdparts/cJSON-master/cJSON.c:902-1021 | The quoted, escaped string follows what was written, in exactly the space asked for |
| `JsonPrinter.PrintBuffer.WriteValue` | thirdparts/cJSON-master/cJSON.c:1367-1438 | The buffer holds the old text, the text of the value and a terminator, whatever growing it took; it fails only for an unprintable node or lack of space |
| `JsonPrinter.PrintBuffer.WriteArray` | thirdparts/cJSON-master/cJSON.c:1539-1598 | The same for arrays, with separators and the depth restored |
| `JsonPrinter.PrintBuffer.WriteObject` | thirdparts/cJSON-master/cJSON.c:1714-1825 | The same for objects, with indentation, separators and line breaks |
| `JsonPrinter.PrintBuffer.WriteItems` | thirdparts/cJSON-master/cJSON.c:1561-1589 | After any number of elements the buffer and what is still to print make up the whole text |
| `JsonPrinter.PrintBuffer.WriteMembers` | thirdparts/cJSON-master/cJSON.c:1743-1806 | The same for members |
| `JsonPrinter.PrintTree` | thirdparts/cJSON-master/cJSON.c:1187-1260 | The printed text depends on the tree and the layout only, not on how often the buffer grew |
| `JsonPrinter.PrintBuffered` | thirdparts/cJSON-master/cJSON.c:1262-1290 | Any initial buffer size gives the same text |
| `JsonPrinter.PrintPreallocated` | thirdparts/cJSON-master/cJSON.c:1292-1309 | A caller's buffer with two bytes to spare always suffices, and what is printed into one is the same text, terminator included |
| `JsonParser.DecodedFits` | thirdparts/cJSON-master/cJSON.c:831-882 | From any place of the second scan, what is still written fits the bytes left, less the pairs the first scan counted |
| `JsonParser.DecoderStaysInside` | thirdparts/cJSON-master/cJSON.c:787-819 | On every input, surrogate pairs and malformed digits included, the decoded text and its zero fit the allocation |
| `JsonParser.FitsLiteral` | thirdparts/cJSON-master/cJSON.c:652-770 | A UTF-16 escape never writes more than the bytes it takes, less the pairs in it |
| `JsonParser.ParseBuffer.SkipWhitespace` | thirdparts/cJSON-master/cJSON.c:1038-1061 | The offset moves to the next visible byte, or to the last byte if there is none |
| `JsonParser.ParseBuffer.ParseHex4` | thirdparts/cJSON-master/cJSON.c:615-648 | Four digits, or 0 as soon as one of them is none |
| `JsonParser.ParseBuffer.WriteUtf8` | thirdparts/cJSON-master/cJSON.c:706-761 | The loop from the last continuation byte writes the UTF-8 form of the code point and nothing before it |
| `JsonParser.ParseBuffer.Utf16LiteralToUtf8` | thirdparts/cJSON-master/cJSON.c:652-770 | Takes the escapes and surrogate pairs that Codepoint takes, which the rows of JsonEscapes pin, and writes their UTF-8 form |
| `JsonParser.ParseBuffer.FindCloseQuote` | thirdparts/cJSON-master/cJSON.c:787-814 | The first scan finds the closing quote and counts the backslash pairs before it |
| `JsonParser.ParseBuffer.UnescapeInto` | thirdparts/cJSON-master/cJSON.c:824-882 | The second scan writes the decoded bytes into a buffer of exactly the allocated size, even when it fails half way |
| `JsonParser.ParseBuffer.PeekUnchecked` | thirdparts/cJSON-master/cJSON.c:781 | The byte at the offset is read without a test, which leaves the content exactly at its end |
| `JsonParser.ParseBuffer.ParseString` | thirdparts/cJSON-master/cJSON.c:773-899 | Reads exactly the string the grammar reads and leaves the offset behind its closing quote; it reads outside the content exactly when entered at its end |
| `JsonParser.ParseBuffer.CopyNumber` | thirdparts/cJSON-master/cJSON.c:318-351 | The loop copies the bytes that may belong to a number, at most 63 |
| `JsonParser.ParseBuffer.ParseNumber` | thirdparts/cJSON-master/cJSON.c:305-379 | Reads as far as strtod does in the copy, fraction and exponent included, or fails where strtod finds no number; the value is cut off and saturated to 32 bits |
| `Strtod.LongestNumeral` | thirdparts/cJSON-master/cJSON.c:353-357 | The end strtod reports is that of the longest beginning of the text that is a number: a sign, digits with or without a point, an exponent; nothing exactly if there is none |
| `Strtod.ScaledUp` | thirdparts/cJSON-master/cJSON.c:353 | An exponent multiplies by its power of ten |
| `Strtod.ScaledDown` | thirdparts/cJSON-master/cJSON.c:353 | A fraction or a negative power of ten leaves exactly the whole part |
| `Strtod.IntegerTaken` | thirdparts/cJSON-master/cJSON.c:353-357 | Of an integer that no byte of a number follows, all is taken, with its value |
| `Strtod.TakenAlone` | thirdparts/cJSON-master/cJSON.c:353-357 | A number followed by a byte that cannot continue one is taken whole out of a longer text, with its value |
| `Strtod.NumeralValue` | thirdparts/cJSON-master/cJSON.c:353-376 | The whole part of any number with digits, fraction and exponent is its real value cut off toward zero |
| `JsonEscapes.HexDigits` | thirdparts/cJSON-master/cJSON.c:615-648 | A byte is a hexadecimal digit of value n exactly if it is the lower-case or upper-case digit n |
| `JsonEscapes.EscapeLetters` | thirdparts/cJSON-master/cJSON.c:826-870 | Exactly the eight letters of RFC 8259 are escapes, each for its byte |
| `JsonEscapes.PairRead` | thirdparts/cJSON-master/cJSON.c:652-707 | Two escapes that spell the halves of a code point are read as that code point, all twelve bytes |
| `JsonEscapes.LoneSurrogate` | thirdparts/cJSON-master/cJSON.c:677-704 | A low surrogate alone, and a high one without a low one behind it, are refused |
| `JsonEscapes.LiteralRead` | thirdparts/cJSON-master/cJSON.c:773-899 | Every literal of plain bytes, letter escapes, escapes and pairs is read, wherever it stands, as the bytes they stand for, up to the first zero or the first malformed digit |
| `JsonEscapes.ScalarRead` | thirdparts/cJSON-master/cJSON.c:652-770 | Every Unicode scalar value written as an escape or a pair stands for its UTF-8 bytes |
| `JsonEscapes.MalformedDigit` | thirdparts/cJSON-master/cJSON.c:615-648 | An escape with a malformed digit is read as a zero, which cuts the string, whatever pieces follow |
| `JsonEscapes.LiteralAccepted` | thirdparts/cJSON-master/cJSON.c:773-899 | Nothing else is read: where parse_string succeeds, such a literal stands and the result is what it stands for |
| `JsonSyntax.ReadValue` | thirdparts/cJSON-master/cJSON.c:1312-1364 | Every JSON text, with any white space, spelling of strings and numbers, is read in any context as the tree it stands for, or refused exactly when it nests too deep |
| `JsonSyntax.ReadItems` | thirdparts/cJSON-master/cJSON.c:1473-1513 | The elements of every array, with any white space around them, are read in order |
| `JsonSyntax.ReadFields` | thirdparts/cJSON-master/cJSON.c:1633-1685 | The members of every object, with any white space around name, colon and value, are read in order |
| `JsonSyntax.NumeralMeans` | thirdparts/cJSON-master/cJSON.c:353-376 | The node of a number holds its real value cut off toward zero where that fits 32 bits, else the nearest bound |
| `JsonSyntax.LongNumberCut` | thirdparts/cJSON-master/cJSON.c:318-351 | Of a number of 63 bytes or more exactly 63 are read, and the parser goes on in the middle of it |
| `JsonSyntax.DocumentRead` | thirdparts/cJSON-master/cJSON.c:1064-1140 | The entry point on every JSON text with byte order mark, white space and anything behind: its tree if and only if it nests at most 1000 deep and, if asked for, only white space and a last zero follow |
| `JsonSyntax.ShortMark` | thirdparts/cJSON-master/cJSON.c:1064-1077 | A byte order mark with one byte or none behind it is refused |
| `JsonAccepted.ValueAccepted` | thirdparts/cJSON-master/cJSON.c:1312-1364 | Where parse_value succeeds, a JSON text stands that ends where it stopped |
| `JsonAccepted.ItemsAccepted` | thirdparts/cJSON-master/cJSON.c:1473-1513 | Where the loop over the elements succeeds, elements stand, separated by commas, with a bracket behind them |
| `JsonAccepted.FieldsAccepted` | thirdparts/cJSON-master/cJSON.c:1633-1685 | The same for members with name, colon and value |
| `JsonAccepted.DocumentAccepted` | thirdparts/cJSON-master/cJSON.c:1064-1140 | The entry point accepts nothing else: a content it makes a tree of begins, behind a mark and white space, with a JSON text that stands for the tree and nests at most 1000 deep |
| `JsonParser.ParseBuffer.ParseValue` | thirdparts/cJSON-master/cJSON.c:1312-1364 | Succeeds exactly when the grammar does, with its value and end, and the depth is restored; the byte behind the content is read exactly where the grammar says so |
| `JsonParser.ParseBuffer.ParseArray` | thirdparts/cJSON-master/cJSON.c:1441-1536 | The same for arrays, refused beyond 1000 levels |
| `JsonParser.ParseBuffer.ParseItems` | thirdparts/cJSON-master/cJSON.c:1473-1513 | The loop collects the elements in order |
| `JsonParser.ParseBuffer.ParseObject` | thirdparts/cJSON-master/cJSON.c:1601-1711 | The same for objects |
| `JsonParser.ParseBuffer.ParseMembers` | thirdparts/cJSON-master/cJSON.c:1633-1685 | The loop collects the members in order |
| `JsonParser.ParseWithLength` | thirdparts/cJSON-master/cJSON.c:1095-1172 | The whole entry point, for every text: byte order mark, white space, value and, if asked for, the terminator; whether the byte behind the buffer was read, whose value never matters |
| `JsonGrammar.OverrunNeedsComma` | thirdparts/cJSON-master/cJSON.c:1633-1660 | Only a text whose last byte is a comma is ever read beyond its end, so a zero-terminated one never is |
| `JsonGrammar.OpenObjectOverruns` | thirdparts/cJSON-master/cJSON.c:1633-1660 | An object left open behind a comma is read beyond its end: the text {"a":1.5, |
| `JsonRoundTrip.StringRoundTrip` | thirdparts/cJSON-master/cJSON.c:773-899 | parse_string undoes print_string_ptr byte for byte on every zero-free string, wherever it stands |
| `JsonRoundTrip.NumberRoundTrip` | thirdparts/cJSON-master/cJSON.c:305-379 | parse_number undoes print_number on every 32-bit integer, through the copy and strtod |
| `JsonRoundTrip.ShortestLiteral` | thirdparts/cJSON-master/cJSON.c:902-1021 | The printed string is a literal of RFC 8259, and no such literal for the same string is shorter |
| `JsonRoundTrip.SourceSpells` | thirdparts/cJSON-master/cJSON.c:1367-1825 | The printed text of a tree is the JSON text with its elements and members in order, line breaks, tabs by depth and gaps exactly where the layout has them |
| `JsonRoundTrip.PrintedIsRead` | thirdparts/cJSON-master/cJSON.c:1095-1825 | The printed text with anything behind it that cannot continue a number is read back as its tree if and only if it nests at most 1000 deep and, if asked for, only white space and a last zero follow |
| `JsonRoundTrip.ValueRoundTrip` | thirdparts/cJSON-master/cJSON.c:1312-1364 | A printed value is read back in any context and at any depth, or refused exactly when it nests too deep |
| `JsonRoundTrip.PrintThenParse` | thirdparts/cJSON-master/cJSON.c:1095-1825 | Parsing the printed text of any tree with its terminator, formatted or not, whether or not the terminator is asked for, gives the tree back in the same order if and only if it nests at most 1000 deep, and nothing otherwise |
| `JsonRoundTrip.PrintThenParseLength` | thirdparts/cJSON-master/cJSON.c:1180-1183 | The same for the text alone, given by its length |
| `CsiCapture.CsiDevice.VideobufQueue` | mod/20.csi/mx6s_capture.c:699-714 | A queued buffer waits behind the others |
| `CsiCapture.CsiDevice.UpdateCsiBuf` | mod/20.csi/mx6s_capture.c:716-723 | The address goes, as 32 bits, to the register of that buffer number and to no other |
| `CsiCapture.CsiDevice.StartStreaming` | mod/20.csi/mx6s_capture.c:885-949 | Takes the first two waiting buffers as numbers 0 and 1, or fails with ENOBUFS or ENOMEM and changes nothing |
| `CsiCapture.CsiDevice.FrameDone` | mod/20.csi/mx6s_capture.c:1001-1086 | The address mismatch and the empty discard list cannot occur; the completed place gives its buffer back, the one its register named, and is refilled, and both registers keep naming the active entries |
| `CsiCapture.CsiDevice.Refill` | mod/20.csi/mx6s_capture.c:1054-1086 | The next waiting buffer, or a discard entry, becomes active under the completed number with its address in that register |
| `CsiCapture.CsiDevice.IrqHandler` | mod/20.csi/mx6s_capture.c:1088-1172 | Only the completion of the place in turn counts, after the frames to skip; both at once count for nothing; a buffer given back is the one whose address stood in the register of the reported place |
| `CsiCapture.CsiDevice.StopStreaming` | mod/20.csi/mx6s_capture.c:951-989 | Every user buffer still held comes back as an error, active ones first, and both registers are cleared |
| `CsiCapture.CsiDevice.DriveAll` | mod/20.csi/mx6s_capture.c:699-1172 | Over any run of events the driver, lists and registers included, is in the state of the two-place rotation |
| `CsiCapture.CompleteKeeps` | mod/20.csi/mx6s_capture.c:1001-1086 | A completed frame loses and doubles no buffer and keeps their order |
| `CsiCapture.StepAccounts` | mod/20.csi/mx6s_capture.c:699-1172 | Every event keeps returned, active and waiting buffers, in this order, equal to the buffers queued |
| `CsiCapture.Conservation` | mod/20.csi/mx6s_capture.c:699-1172 | The same over any run from the start |
| `CsiCapture.AllReturned` | mod/20.csi/mx6s_capture.c:951-989 | After a stop every queued buffer has come back exactly once, in the order queued, and no discard buffer ever has |
| `CsiCapture.SequencesIncrease` | mod/20.csi/mx6s_capture.c:1042-1051 | Until the 32-bit counter wraps, the sequence numbers of done frames strictly increase over any run |
| `CsiCapture.FilledInTurn` | mod/20.csi/mx6s_capture.c:1001-1086 | The buffer with k others waiting before it is given back by the completion number k + 3, with the number of its frame |
| `CsiCapture.TurnReported` | mod/20.csi/mx6s_capture.c:1144-1163 | With nothing to skip, the report of the place in turn gives back exactly its buffer, done, with the number of its frame, and turns to the other place; any other report changes nothing |
| `CsiCapture.TurnSkipped` | mod/20.csi/mx6s_capture.c:1150-1162 | With frames to skip, that report counts one down and does not change the turn |
| `CsiCapture.AddressChanged` | mod/20.csi/mx6s_capture.c:1125-1136 | An address error makes the driver skip one frame more, the one reported with it first |
| `CsiCapture.AlternatingRun` | mod/20.csi/mx6s_capture.c:1144-1163 | Over alternating reports from a start with three to skip: every second one counts, so six pass before each one completes a frame |
| `CsiCapture.CompletionsGive` | mod/20.csi/mx6s_capture.c:1001-1086 | Completions give the buffers in line back in order with consecutive numbers |
| `CsiCapture.StreamFills` | mod/20.csi/mx6s_capture.c:885-1172 | From the start of a stream, behind six reports, each further alternating report gives back the next of the buffers that waited, in the order queued and with consecutive numbers |
| `UartTransmit.RingPut` | mod/12.serial/imx.c:570-578 | Storing behind the last byte of a ring that is not full appends one byte and disturbs none |
| `UartTransmit.GatherStretches` | mod/12.serial/imx.c:647-657 | The one or two stretches hold exactly the bytes of the ring, in order, across the wrap |
| `UartTransmit.RingInTwo` | mod/12.serial/imx.c:593-629 | A ring is its first bytes and then the ring from there, across the wrap |
| `UartTransmit.ImxPort.PutChar` | mod/12.serial/imx.c:570-578 | A byte is accepted exactly if there is space; while a DMA runs, its stretches still read the bytes handed over last |
| `UartTransmit.ImxPort.EngineReads` | mod/12.serial/imx.c:632-690 | At any moment of a transfer the bytes in the stretches given to the engine are the bytes handed over last, whatever was written since |
| `UartTransmit.ImxPort.StopRx` | mod/12.serial/imx.c:494-526 | The receiver goes off, or stays on looped back where CTS is the UART's own and active while sending |
| `UartTransmit.ImxPort.StopTx` | mod/12.serial/imx.c:429-491 | The exact next state, OFF at once if the shifter is done and no delay is due; the transmit interrupt is off unless a DMA runs; once off, the receiver hears the line again if and only if it was not looped back |
| `UartTransmit.ImxPort.FillScatterList` | mod/12.serial/imx.c:645-657 | The scatter list covers all pending bytes |
| `UartTransmit.ImxPort.DmaTx` | mod/12.serial/imx.c:632-690 | All pending bytes are handed over at once, or none if a DMA runs or cannot be prepared; the engine is enabled (UCR1_TXDMAEN) exactly if it was started, and may read them until it reports back |
| `UartTransmit.ImxPort.EndFlight` | mod/12.serial/imx.c:593-616 | Exactly the bytes the engine read leave the buffer |
| `UartTransmit.ImxPort.DmaTxCallback` | mod/12.serial/imx.c:593-629 | Those bytes leave, and what came meanwhile is handed over at once unless stopped, with the engine enabled exactly then; else the line is watched for its end |
| `UartTransmit.ImxPort.WriteNext` | mod/12.serial/imx.c:570-578 | One byte, the oldest, is written, and only while the line is driven |
| `UartTransmit.ImxPort.FillFifo` | mod/12.serial/imx.c:568-579 | The PIO loop writes as many bytes as the FIFO has room for, in order |
| `UartTransmit.ImxPort.TransmitBuffer` | mod/12.serial/imx.c:541-591 | A pending special character goes out first and alone; else how many waiting bytes are handed over in each case, with the engine enabled if it has them, and the exact next state |
| `UartTransmit.ImxPort.TakeLine` | mod/12.serial/imx.c:707-749 | From any state to SEND, or to the delay before it, with RTS and receiver as the state demands |
| `UartTransmit.ImxPort.StartTx` | mod/12.serial/imx.c:693-772 | The exact next state, interrupt enable and bytes handed over; nothing to send changes nothing |
| `UartTransmit.ImxPort.IrqHandler` | mod/12.serial/imx.c:944-1023 | Only an enabled interrupt transmits, and then in state SEND with the line driven; a pending special character is sent exactly then |
| `UartTransmit.ImxPort.Execute` | mod/12.serial/imx.c:541-772 | Each event, the timers at any moment, keeps the order of the bytes and the line invariant, sends a pending special character at most once, and takes the states in turn: no sending before the delay before it, no leaving SEND before the shifter is done, no RTS change before the delay behind it |
| `UartTransmit.ImxPort.Run` | mod/12.serial/imx.c:541-772 | Over any interleaving the bytes handed over are a prefix of those written, each once and in order; TCEN is set exactly in SEND for RS485 without DMA, RTS has its sending level exactly outside OFF, the receiver is then off or looped back, and the engine is enabled while a transfer runs unless a special character is due |
| `Crc16.TableIsSerial` | desktop/manage_tool/protocol.cpp:10-43 | Each of the 256 table entries is the remainder of its index, bit by bit |
| `Crc16.ByteStep` | desktop/manage_tool/protocol.cpp:113-116 | One table look-up does the work of eight bits |
| `Crc16.TableDriven` | embed/common/calculate.cpp:22-67 | On every buffer and start value the table-driven CRC is the bit-serial reflected CRC-16 |
| `Crc16.Compute` | desktop/manage_tool/protocol.cpp:127-132 | The loop computes the bit-serial CRC of the bytes it is given |
| `Crc16.CheckValue` | desktop/manage_tool/protocol.cpp:10-147 | The CRC of the nine bytes 123456789 is 0x4B37, the published check value of this polynomial, reflection and start value |
| `Crc16.Linear` | desktop/manage_tool/protocol.cpp:113-132 | The CRC is linear: the exclusive or of two buffers and start values has the exclusive or of their CRCs |
| `Crc16.LastByte` | desktop/manage_tool/protocol.cpp:113-132 | Changing the last byte of a buffer adds the remainder of the change to its CRC |
| `Crc16.TwoBytes` | desktop/manage_tool/protocol.cpp:113-132 | Two changed bytes in a row cannot cancel out |
| `Crc16.DifferenceStays` | desktop/manage_tool/protocol.cpp:113-132 | Different states stay different over the same bytes |
| `Crc16.ShortBurstDetected` | desktop/manage_tool/protocol.cpp:113-147 | Any change confined to two neighbouring bytes changes the CRC, on buffers of any length |
| `FrameProtocol.FillFrame` | desktop/manage_tool/protocol.cpp:69-87 | Head, length field, id, packet number and payload stand in this order |
| `FrameProtocol.CreateSendBuffer` | desktop/manage_tool/protocol.cpp:55-103 | The buffer starts with exactly the frame of the given id, packet number and payload, or, written through, with the payload alone |
| `FrameProtocol.WriteThrough` | desktop/manage_tool/protocol.cpp:95-99 | Data written through stands at the start of the buffer unchanged |
| `FrameProtocol.FrameIsOk` | desktop/manage_tool/protocol.cpp:192-205 | A frame that announces the body it carries passes the receiver's test |
| `FrameProtocol.ChecksumCheck` | desktop/manage_tool/protocol.cpp:137-147 | calculate_crc gives that check value, so it starts with all ones |
| `FrameProtocol.SentFrameOk` | desktop/manage_tool/protocol.cpp:55-103 | What CreateSendBuffer builds from present data passes that test |
| `FrameProtocol.SentFields` | desktop/manage_tool/protocol.cpp:69-92 | In a frame sent stand 0x5A, the size of the payload and three more, the id, the packet number, the payload and the CRC of all behind the head, numbers with the high byte first |
| `FrameProtocol.AlteredFrame` | desktop/manage_tool/protocol.cpp:192-205 | A frame changed within two neighbouring bytes of its body fails the test |
| `FrameProtocol.StraddlingChange` | desktop/manage_tool/protocol.cpp:89-91 | A change of the last body byte and the first CRC byte escapes the test if and only if the table entry of the one has no low part and its high part equals the other |
| `FrameProtocol.StraddlingEscapes` | desktop/manage_tool/protocol.cpp:89-91 | Every good frame with a body has such an altered frame that still passes |
| `FrameReceiver.AcceptedIsFrame` | desktop/manage_tool/protocol.cpp:152-236 | RT_OK is given only for a frame with the right head and CRC that fits the buffer |
| `FrameReceiver.AcceptedIsPrefix` | desktop/manage_tool/protocol.cpp:152-236 | For a stream that begins with a head byte the accepted bytes are its beginning |
| `FrameReceiver.AlteredNeverAccepted` | desktop/manage_tool/protocol.cpp:152-236 | A frame altered within two neighbouring bytes of its body never gets RT_OK, in whatever chunks it arrives |
| `FrameReceiver.SilenceTimesOut` | desktop/manage_tool/protocol.cpp:224-232 | A silent device leads to RT_TIMEOUT |
| `FrameReceiver.GoodFrameArrives` | desktop/manage_tool/protocol.cpp:152-236 | A good frame in any chunks, silent turns included, in both head modes, is accepted if and only if no silence is longer than the limit and the last chunk has three bytes or more; otherwise the receiver times out, holding the whole frame |
| `FrameReceiver.NoiseIsSilence` | desktop/manage_tool/protocol.cpp:164-177 | While the head is looked for, each byte that is no head counts as a turn that brings nothing, wherever the chunks end |
| `FrameReceiver.FrameInStream` | desktop/manage_tool/protocol.cpp:152-236 | A frame of the announced length, good or bad, with anything behind it and, where the head is looked for byte by byte, noise before it: if a chunk of three bytes or more ends at its last byte or later, before the silence is too long or the buffer full, the code is RT_OK or RT_CRC_ERROR as its CRC is right or wrong; otherwise, and only then, RT_TIMEOUT |
| `FrameReceiver.NoHeadFails` | desktop/manage_tool/protocol.cpp:183-190 | Where the head is not looked for, a stream that begins with another byte gives RT_FAIL with its first chunk, or RT_TIMEOUT if that is too late |
| `FrameReceiver.BusyIsPatient` | desktop/manage_tool/protocol.cpp:192-218 | Without silent turns only the size of the last chunk counts |
| `FrameReceiver.RoomInside` | desktop/manage_tool/protocol.cpp:181 | The size asked for stays inside the buffer if and only if the bytes collected do |
| `FrameReceiver.MultipleOf256Overruns` | desktop/manage_tool/protocol.cpp:181 | For a buffer size that is a multiple of 256, and only then, the loop asks for more than the buffer holds once the head byte is there: 65535 bytes |
| `FrameReceiver.Receiver.constructor` | desktop/manage_tool/include/protocol.h:133-140 | Any buffer size is taken, through eight bits: only its remainder by 256 is used |
| `FrameReceiver.Receiver.ReadHead` | desktop/manage_tool/protocol.cpp:164-177 | One byte is taken; a head byte starts a frame, anything else is dropped and counted as silence |
| `FrameReceiver.Receiver.CheckFrame` | desktop/manage_tool/protocol.cpp:192-205 | Whether all announced bytes are there and whether their CRC is right |
| `FrameReceiver.Receiver.CheckReceiveData` | desktop/manage_tool/protocol.cpp:152-236 | The loop ends, each turn collecting bytes or waiting one turn longer, with the code and bytes of the model and inside the buffer; for a size that is a multiple of 256 only in the mode that does not read the head byte first |
| `ProtocolQueue.HoldsPost` | desktop/manage_tool/include/protocol.h:75-86 | The locked part of posting appends one item and overwrites none if a slot is free |
| `ProtocolQueue.HoldsPend` | desktop/manage_tool/include/protocol.h:91-119 | The locked part of pending takes the oldest item and clears its slot if there is one |
| `ProtocolQueue.OneToOne` | desktop/manage_tool/include/protocol.h:68-127 | With one producer and one consumer every interleaving of tests and locked parts is a FIFO of capacity 20: nothing is overwritten, no cleared slot is read, each item is delivered once and in order, and the write index is the read index plus the count modulo 20 |
| `ProtocolQueue.TwoProducersLose` | desktop/manage_tool/include/protocol.h:68-87 | Two producers can overwrite an item: a concrete run |
| `ProtocolQueue.TwoConsumersCrash` | desktop/manage_tool/include/protocol.h:89-127 | Two consumers can read a cleared slot: a concrete run |
| `ProtocolQueue.SafeExactly` | desktop/manage_tool/include/protocol.h:68-127 | No run goes wrong if and only if there is no producer, or one producer and at most one consumer |
| `ProtocolQueue.CProtocolQueue.PostUnderLock` | desktop/manage_tool/include/protocol.h:75-86 | The locked part changes slots, index and counter as the model does |
| `ProtocolQueue.CProtocolQueue.PendUnderLock` | desktop/manage_tool/include/protocol.h:91-119 | The same for pending, with the item taken |
| `ProtocolQueue.CProtocolQueue.QueuePost` | desktop/manage_tool/include/protocol.h:68-87 | Undisturbed, it appends or reports full exactly at 20 items |
| `ProtocolQueue.CProtocolQueue.QueuePend` | desktop/manage_tool/include/protocol.h:89-127 | Undisturbed, it delivers the oldest item or reports empty |
| `JsoncppNumber.DecodeNumber` | thirdparts/jsoncpp/json_reader.cpp:1553-1631 | For digits of any number with an optional minus, the exact integer precisely when it lies in [-2^63, 2^64-1], else the double decoder; no 64-bit operation wraps |
| `JsoncppNumber.TooLarge` | thirdparts/jsoncpp/json_reader.cpp:1603-1614 | Where the threshold test gives up, the whole number is out of range |
| `JsoncppNumber.UintToString` | thirdparts/jsoncpp/json_tool.h:81-87 | The digits and a terminator are written from the end of the buffer, and nothing before them changes |
| `JsoncppNumber.SignedToString` | thirdparts/jsoncpp/json_writer.cpp:94-108 | The text of every signed 64-bit integer, which fits the 25-byte buffer |
| `JsoncppNumber.UnsignedToString` | thirdparts/jsoncpp/json_writer.cpp:110-116 | The same for unsigned ones |
| `JsoncppNumber.TextDecodes` | thirdparts/jsoncpp/json_writer.cpp:94-116 | Decoding inverts the text form on all 64-bit integers, signed and unsigned |
| `JsoncppOrder.Total` | thirdparts/jsoncpp/json_value.cpp:486-536 | Of two values without reals exactly one is true: less, the same, or greater |
| `JsoncppOrder.Transitive` | thirdparts/jsoncpp/json_value.cpp:486-536 | operator< is transitive over nested arrays and objects |
| `JsoncppOrder.KeyTotal` | thirdparts/jsoncpp/json_value.cpp:295-324 | The order of map keys is total and agrees with their equality |
| `JsoncppOrder.EqualIs` | thirdparts/jsoncpp/json_value.cpp:544-582 | operator== holds exactly for equal values |
| `JsoncppOrder.CompareIsEqual` | thirdparts/jsoncpp/json_value.cpp:478-484 | compare returns 0 exactly when operator== holds, and swapping its arguments changes the sign |
| `JsoncppOrder.TypesInOrder` | thirdparts/jsoncpp/json_value.cpp:490-493 | Values of different types: null, signed, unsigned, string, bool, array, object |
| `JsoncppOrder.StringsInOrder` | thirdparts/jsoncpp/json_value.cpp:503-525 | Strings: a proper beginning first, else the first different byte decides |
| `JsoncppOrder.KeysInOrder` | thirdparts/jsoncpp/json_value.cpp:295-309 | Map keys: indices by number, names as strings |
| `JsoncppOrder.EntriesInOrder` | thirdparts/jsoncpp/json_value.cpp:526-533 | Containers of one size: the first different entry decides, by its key and then by its value |
| `JsoncppOrder.ValuesInOrder` | thirdparts/jsoncpp/json_value.cpp:494-537 | Within each type: the smaller number, false before true, a missing string first, strings and containers as above with the size first |
| `JsoncppOrder.CompareSign` | thirdparts/jsoncpp/json_value.cpp:482-488 | compare is -1 exactly for the lesser and 1 exactly for the greater value |
| `JsoncppString.Utf8Decodes` | thirdparts/jsoncpp/json_writer.cpp:186-243 | The writer's decoder reads back what UTF-8 encodes, whatever follows |
| `JsoncppString.CutShort` | thirdparts/jsoncpp/json_writer.cpp:194-235 | A character cut short at the end is replaced by U+FFFD byte by byte |
| `JsoncppString.MalformedThree` | thirdparts/jsoncpp/json_writer.cpp:205-219 | A surrogate in UTF-8, or three bytes where fewer would do, are replaced as a whole |
| `JsoncppString.OverlongTwo` | thirdparts/jsoncpp/json_writer.cpp:194-203 | Two bytes where one would do are replaced as a whole |
| `JsoncppString.OverlongFour` | thirdparts/jsoncpp/json_writer.cpp:221-232 | Four bytes where fewer would do are replaced as a whole |
| `JsoncppString.NoLead` | thirdparts/jsoncpp/json_writer.cpp:221-235 | A byte no character begins with is replaced alone |
| `JsoncppString.ValueToQuotedString` | thirdparts/jsoncpp/json_writer.cpp:273-348 | The loop, or the short cut for plain text, computes the quoted text |
| `JsoncppString.EscapeNext` | thirdparts/jsoncpp/json_writer.cpp:289-343 | One turn appends the escape of what it takes |
| `JsoncppLiteral.QuotedBack` | thirdparts/jsoncpp/json_reader.cpp:1413-1423 | Every valid UTF-8 string, escaped to ASCII or not, is tokenised to its last quote and decoded to the same bytes |
| `JsoncppLiteral.AsciiBack` | thirdparts/jsoncpp/json_writer.cpp:326-342 | Escaped to ASCII, any byte string is tokenised to its last quote and is read back as itself if and only if it is valid UTF-8 |
| `JsoncppLiteral.Utf8Back` | thirdparts/jsoncpp/json_writer.cpp:319-326 | Written as UTF-8, every byte string is read back as itself, valid or not |
| `JsoncppLiteral.PieceDecoded` | thirdparts/jsoncpp/json_reader.cpp:1666-1742 | A byte, a letter escape, an escape or a pair decodes to the bytes it stands for; of a pair the lowest ten bits of each half count |
| `JsoncppLiteral.TokenIs` | thirdparts/jsoncpp/json_reader.cpp:1413-1717 | readString and decodeString: a token is read as a byte string if and only if it is made of such pieces and they stand for that string |
| `JsoncppLiteral.StandardPiece` | thirdparts/jsoncpp/json_reader.cpp:1719-1742 | What RFC 8259 allows stands for what it says, the code point of every proper pair included |
| `JsoncppLiteral.StandardGood` | thirdparts/jsoncpp/json_reader.cpp:1719-1742 | The reader takes every literal of RFC 8259 |
| `JsoncppLiteral.ShortestUtf8` | thirdparts/jsoncpp/json_writer.cpp:289-326 | Written as UTF-8, a string is a literal of RFC 8259, and no such literal for the same bytes is shorter |
| `JsoncppLiteral.ShortestAscii` | thirdparts/jsoncpp/json_writer.cpp:326-342 | Escaped to ASCII, valid UTF-8 is a literal of RFC 8259 in ASCII without control characters but DEL, and none for the same bytes is shorter |
| `JsoncppString.OurReader.ReadString` | thirdparts/jsoncpp/json_reader.cpp:1413-1423 | Stops behind the first quote that is not escaped, or fails at the end |
| `JsoncppString.OurReader.DecodeEscapeSequence` | thirdparts/jsoncpp/json_reader.cpp:1744-1768 | Four hexadecimal digits before the end, or an error |
| `JsoncppString.OurReader.DecodeUnicodeCodePoint` | thirdparts/jsoncpp/json_reader.cpp:1719-1742 | One escape or a surrogate pair, or an error |
| `JsoncppString.OurReader.DecodeString` | thirdparts/jsoncpp/json_reader.cpp:1666-1717 | The loop decodes exactly what the model decodes, or fails |

## Left out

- JsonPatch.Document.ApplyPatches: the document is a value that each patch replaces; that `apply_patch` and `merge_patch` relink nodes in place, and aliasing between source and patch, is modelled only for the list operations they are built from (`ChildList`, `SortList`). So the model does not show that a TEST patch sorts the objects it compares, in the document itself, through `compare_json` (cJSON_Utils.c:656-657), after which an ADD to such an object can be lost with status 0: the document {"b":1,"a":2}, a test at the empty path, then an add at /c. Exactly when the added member is lost says `ChildList.Children.AddAfterSort`.
- PatchLaw.PatchRoundTrip: `create_patches`, `compare_json` and `generate_merge_patch` sort the members of their arguments as a side effect; the model sorts copies, which is why the law speaks of a duplicate of the source.
- JsonParser.ParseBuffer.ParseNumber: the value is the exact decimal value of the text, cut off to `valueint`; that `strtod` rounds to a double first, which can carry a long fraction into the next integer, and `valuedouble` are not part of this model, nor are locales with another decimal point.
- JsonRoundTrip.NumberRoundTrip: numbers of the tree are their 32-bit `valueint`.
- JsonPointer.DecodeIndexIs: `size_t` has 64 bits (`SizeMax`), as on the desktop; on the board it has 32, and indices wrap there already at 2^32.
- JsonPrinter.PrintBuffer.WriteNumber: 32-bit integers only; `sprintf` of doubles is not part of this model.
- JsonPrinter.PrintBuffer.Ensure: allocation never fails, and growing always copies the text as the branch without `realloc` does.
- CsiCapture.SequencesIncrease: the frame counter is 32 bits wide and wraps; the numbers increase only up to the wrap.
- CsiCapture.CsiDevice.StartStreaming: enabling the hardware succeeds; format, clock and timeout handling are left out, and buffers enter the driver marked active with `discard` false.
- UartTransmit.ImxPort.Run: flushing the buffer, console output, `set_mctrl`, `set_termios` and changing the RS485 configuration of an open port are left out, and so are the separate interrupt lines of the i.MX1.
- UartTransmit.ImxPort.StartTx: how long a delay lasts is not stated; the timers may fire at any moment, but the states they separate are taken in turn.
- FrameProtocol.CreateSendBuffer: the buffer is shorter than 65536 bytes, as every one here is (1200 bytes, desktop/manage_tool/include/typedef.h:31), so no 16-bit sum wraps; the packet number is a parameter.
- FrameReceiver.Receiver.CheckReceiveData: for a buffer size that is a multiple of 256 the mode that reads the head byte first is excluded, because the code then writes outside the buffer.
- FrameReceiver.AlteredNeverAccepted: changes inside the body only; for changes that span body and CRC `FrameProtocol.StraddlingChange` says which ones escape.
- ProtocolQueue.OneToOne: `clear`, which drops items without deleting them, and `isEmpty` are left out; an item stands for the object posted.
- JsoncppOrder.Total: values with reals are left out, since NaN breaks every order.
- JsoncppString.OurReader.DecodeString: error records, comments, single quotes and locale are left out; `isprint` is that of the C locale.
- MOVE with a `from` field that is no string: the code passes a null pointer on to `detach_path`; the model answers status 5, as the code does for COPY.
- `cJSON_Minify`, `cJSON_Duplicate`, `cJSON_Compare`, hooks, styled writers, `Value::resize` and the containers' in-place edits in jsoncpp.
- Device probing, power management, user interfaces, sockets, MQTT and the board's LED, beep, watchdog, backlight, joystick and ADC drivers: only easy members.

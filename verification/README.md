# Fabric defect inspection: a verified model of the controller

This Dafny project models the parts of the fabric defect inspection system that carry its state and its protocols,
and proves what they are for. It covers eight areas.

- **The system heap** (`HeapChain.dfy`, `HeapLive.dfy`, `Heap.dfy`). The chain of blocks as a value with its invariant over
  every run of requests, what each request does to the live blocks, and the same operations on a byte arena with headers
  inside it, proved against the chain.
- **JSON text** (`JsonText.dfy`, `JsonTokens.dfy`, `JsonGrammar.dfy`, `JsonRoundTrip.dfy`, `JsonBounds.dfy`, `Parser.dfy`,
  `Printer.dfy`). What the printer writes and the parser reads as functions, the grammar of RFC 8259 that decides what is
  read, the round trip, and the two machines that run: a cursor over a terminated buffer and an output buffer that grows
  or must not.
- **JSON Pointer, Patch and Merge Patch** (`JsonTree.dfy`, `JsonCompare.dfy`, `JsonPointer.dfy`, `JsonPatch.dfy`,
  `PatchRoundTrip.dfy`, `DiffExact.dfy`, `PatchPositions.dfy`, `PatchObjects.dfy`, `PatchEngine.dfy`, `LoosePatch.dfy`,
  `TestedPatches.dfy`, `PatchDocument.dfy`, `MergePatch.dfy`). Sections 3 and 4 of RFC 6901, section 4 of RFC 6902 and
  section 2 of RFC 7396, with what each patch does to a document, with the exact conditions under which difference and
  application undo each other, and with what a `test` does to the lists it sorts.
- **Sibling lists** (`SiblingList.dfy`, `KeySort.dfy`, `LooseList.dfy`, `ListSort.dfy`). The doubly linked children of an
  item, their editing and their sort, on nodes that are relinked in place, and where the head points back to.
- **The block pool** (`Pool.dfy`). A transition system of any number of threads, and the pool's header words.
- **The image line** (`Receiver.dfy`, `Batch.dfy`). Sender, sliding-window receiver, and the batch accounting from the
  count characters to the report.
- **The motors** (`Motor.dfy`) and **the PWM dividers** (`Pwm.dfy`).

`Bytes.dfy` holds bytes, C strings, their two orders, and decimal numerals. Code that changes state is modelled by
classes and methods with loops; each is proved against a function, and the properties are proved about the function.

## Where the code differs from what is said about it

The model follows the code. These differences are stated as theorems.

- `decode_pointer_inplace` does not move ordinary bytes down, so it undoes the escape only on keys whose ordinary bytes
  the escape leaves in place (`JsonPointer.SurvivesExactly`), and the patch round trip holds exactly for those
  (`PatchRoundTrip.PatchableKeysExact`).
- `detach_path` matches without case even when asked for case (`PatchRoundTrip.RemoveConfusedKey`).
- `generate_merge_patch` recurses without case and compares with case (`MergePatch.CaseNeutralExact`).
- `sort_list` does not restore the head's pointer to the tail; unless the first key was strictly least and the last
  strictly greatest, the next append is lost or cuts the list, and still reports success (`ListSort.SortThenAppend`). A
  patch list can meet this: an `add` behind a `test` (`TestedPatches.TestThenAdd`, `TestedPatches.LostMember`).
- `decode_array_index_from_pointer` tests the upper bound of a digit on the first byte only, and takes the empty token for
  index 0 (`JsonPointer.IndexAccepted`, `JsonPointer.LetterIndex`).
- A failing `replace` or `move` may already have removed a child (`PatchObjects.Incomplete`, `PatchObjects.FailedPatch`).
- The parser takes every control byte for white space, four bytes that are not hexadecimal digits for U+0000, and the
  first 63 bytes of a longer number for the number (`JsonGrammar.AcceptedExactly`, `JsonTokens.EscapeAccepted`,
  `JsonTokens.LongNumber`).
- A frame whose image contains the tail bytes is not received after every history (`Frames.FrameFromAnywhereExactly`).
- A reallocation to a smaller size can fail and return null (`HeapChain.ReallocFails`, `HeapChain.ShrinkCanFail`).
- A size above 2^32 - 4 rounds to zero: an allocation then returns a 12-byte block and a reallocation frees
  (`HeapChain.AllocRoom`, `HeapChain.ReallocFailure`).
- The comment on `cJSON_PrintPreallocated` asks for five spare bytes; two are needed, counting the terminator
  (`Printer.PrintPreallocated`).
- A batch whose results file does not open spills into the next one (`Batch.UnopenedFileLeaks`).
- Both motor enables are high for a moment when a forward command follows a backward one (`Motor.ClashExactly`), and a
  jog does not restore the period (`Motor.JogKeepsItsPeriod`).

## Model

| member | source | states |
|---|---|---|
| PatchRoundTrip.PatchesRoundTrip | Fabric_Defect_Detection_END/packages/cJSON-v1.7.17/cJSON_Utils.c:808-1280 | for every two trees with int-range numbers, distinct keys from a patchable set and arrays that fit the address space, applying the patches that `create_patches(from, to)` writes to a copy of `from` returns success and gives a tree equal to `to` up to member order, in both comparison modes |
| TestedPatches.PatchesRoundTripInPlace | Fabric_Defect_Detection_END/packages/cJSON-v1.7.17/cJSON_Utils.c:808-1280 | the same on a document with its list pointers: generated patches are applied without a fault, reach `to`, and leave every list intact |
| PatchRoundTrip.PatchableKeysExact | Fabric_Defect_Detection_END/packages/cJSON-v1.7.17/cJSON_Utils.c:360-482 | the exact condition, in either mode: every pair of trees over a key set round-trips if and only if no key has a `/`, in every key each byte other than `~` stands in the escaped key where it stands in the key, and no two keys differ only in case (`detach_path` always matches without case) |
| PatchRoundTrip.PlainKeysArePatchable | Fabric_Defect_Detection_END/packages/cJSON-v1.7.17/cJSON_Utils.c:360-482 | lower-case keys without `~` and `/` meet that condition |
| PatchRoundTrip.AddOneKey | Fabric_Defect_Detection_END/packages/cJSON-v1.7.17/cJSON_Utils.c:808-1037 | adding one member works, in either mode, if and only if its key has no `/` and its bytes other than `~` stand in the escaped key where they stand in the key: the concrete failing pair |
| PatchRoundTrip.RemoveConfusedKey | Fabric_Defect_Detection_END/packages/cJSON-v1.7.17/cJSON_Utils.c:431-482 | with two keys equal up to case, removing one takes whichever comes first, so the case-sensitive round trip fails |
| PatchRoundTrip.RenameConfusedKey | Fabric_Defect_Detection_END/packages/cJSON-v1.7.17/cJSON_Utils.c:1216-1280 | without case, renaming a key to one equal up to case generates no patch at all, so the round trip fails |
| DiffExact.NoPatchesExactly | Fabric_Defect_Detection_END/packages/cJSON-v1.7.17/cJSON_Utils.c:1142-1280 | for tidy trees over patchable keys, in both modes, no patch is generated if and only if the two trees are equal up to member order |
| DiffExact.EditsAreNeeded | Fabric_Defect_Detection_END/packages/cJSON-v1.7.17/cJSON_Utils.c:1142-1280 | every generated edit is a difference of the two values at the place its path names: a `replace` where both have a node and the two differ and are not two objects or two arrays, a `remove` or an `add` where one side alone has the field or the element, with the value of the other side |
| DiffExact.NodeAlters | Fabric_Defect_Detection_END/packages/cJSON-v1.7.17/cJSON_Utils.c:1142-1280 | applied one after the other, every generated edit succeeds and changes what the document means |
| PatchRoundTrip.PatchPerformsEdit | Fabric_Defect_Detection_END/packages/cJSON-v1.7.17/cJSON_Utils.c:1097-1135 | a patch object composed for an edit, decoded and applied, performs exactly that edit |
| PatchRoundTrip.EditsBelow | Fabric_Defect_Detection_END/packages/cJSON-v1.7.17/cJSON_Utils.c:808-1037 | edits whose paths stay below one child, run in the whole document, change that child as they would alone and nothing else |
| PatchRoundTrip.ItemsRoundTrip | Fabric_Defect_Detection_END/packages/cJSON-v1.7.17/cJSON_Utils.c:1171-1214 | array patches: shrinking by repeated removal at one index and growing by `-` reach the target array |
| PatchRoundTrip.MembersRoundTrip | Fabric_Defect_Detection_END/packages/cJSON-v1.7.17/cJSON_Utils.c:1216-1280 | object patches: the walk over both sorted member lists reaches the target object |
| PatchRoundTrip.DiffPrefix | Fabric_Defect_Detection_END/packages/cJSON-v1.7.17/cJSON_Utils.c:1142-1280 | generating below a path only prefixes the paths of the generated edits |
| JsonPatch.DetachNothing | Fabric_Defect_Detection_END/packages/cJSON-v1.7.17/cJSON_Utils.c:431-482 | a detach that finds nothing leaves the document unchanged |
| PatchPositions.DetachAtPointer | Fabric_Defect_Detection_END/packages/cJSON-v1.7.17/cJSON_Utils.c:431-482 | detaching at the pointer of any node returns exactly that node and leaves the document without it and otherwise as it was, for patchable keys |
| PatchPositions.InsertAtPointer | Fabric_Defect_Detection_END/packages/cJSON-v1.7.17/cJSON_Utils.c:948-1037 | inserting below the pointer of any node, under a new name, in front of an element or behind the last one, adds the value there and changes nothing else |
| PatchPositions.DetachUndoesInsert | Fabric_Defect_Detection_END/packages/cJSON-v1.7.17/cJSON_Utils.c:431-482 | detaching with the path of an insertion gives the value and the old document back |
| PatchPositions.EditDown | Fabric_Defect_Detection_END/packages/cJSON-v1.7.17/cJSON_Utils.c:431-482 | below the pointer of a node an edit does to the document what it does to that node alone, whatever stands there |
| PatchObjects.NamesDecode | Fabric_Defect_Detection_END/packages/cJSON-v1.7.17/cJSON_Utils.c:741-779 | the six operation names of RFC 6902, spelled out, and nothing else, stand for the six operations |
| PatchObjects.Composed | Fabric_Defect_Detection_END/packages/cJSON-v1.7.17/cJSON_Utils.c:1097-1135 | a composed patch is an object with the operation by its name, the path and, if there is one, the value |
| PatchObjects.AddPatch | Fabric_Defect_Detection_END/packages/cJSON-v1.7.17/cJSON_Utils.c:808-1037 | a patch object with "add", the path of a free place and a value: the value is there, and nothing else changes |
| PatchObjects.AddOverPatch | Fabric_Defect_Detection_END/packages/cJSON-v1.7.17/cJSON_Utils.c:808-1037 | "add" under a name that is taken replaces that member |
| PatchObjects.RemovePatch | Fabric_Defect_Detection_END/packages/cJSON-v1.7.17/cJSON_Utils.c:808-1037 | "remove" with the path of a child: the document without it |
| PatchObjects.ReplacePatch | Fabric_Defect_Detection_END/packages/cJSON-v1.7.17/cJSON_Utils.c:808-1037 | "replace" exchanges the value of a child, an element in its place and a member behind the others |
| PatchObjects.MovePatch | Fabric_Defect_Detection_END/packages/cJSON-v1.7.17/cJSON_Utils.c:905-1037 | "move" takes the child out and puts its value at a place that is free in the document without it |
| PatchObjects.CopyPatch | Fabric_Defect_Detection_END/packages/cJSON-v1.7.17/cJSON_Utils.c:905-1037 | "copy" leaves the document as it is and puts the value of any of its nodes at a free place |
| PatchObjects.TestPatch | Fabric_Defect_Detection_END/packages/cJSON-v1.7.17/cJSON_Utils.c:832-837 | "test" answers 0 if and only if the node means what the value means, else 1, and changes nothing |
| PatchObjects.NewDocument | Fabric_Defect_Detection_END/packages/cJSON-v1.7.17/cJSON_Utils.c:839-886 | "add" and "replace" at the empty path exchange the document |
| PatchObjects.RemoveDocument | Fabric_Defect_Detection_END/packages/cJSON-v1.7.17/cJSON_Utils.c:839-850 | "remove" at the empty path leaves an Invalid item |
| PatchObjects.BadPatch | Fabric_Defect_Detection_END/packages/cJSON-v1.7.17/cJSON_Utils.c:818-830 | status 2 without a path that is a string, status 3 for an operation that is none of the six |
| PatchObjects.Incomplete | Fabric_Defect_Detection_END/packages/cJSON-v1.7.17/cJSON_Utils.c:888-958 | status 7 without a value and 4 without a `from`; a "replace" without a value has taken the child out by then |
| PatchObjects.NothingThere | Fabric_Defect_Detection_END/packages/cJSON-v1.7.17/cJSON_Utils.c:888-896 | status 13 when there is nothing to remove or replace at the path |
| PatchObjects.NoRoom | Fabric_Defect_Detection_END/packages/cJSON-v1.7.17/cJSON_Utils.c:974-1024 | status 10 for an index behind the end, 9 below a node without children |
| PatchObjects.NoIndex | Fabric_Defect_Detection_END/packages/cJSON-v1.7.17/cJSON_Utils.c:990-996 | status 11 for a token of an array that is no index |
| PatchObjects.FailedPatch | Fabric_Defect_Detection_END/packages/cJSON-v1.7.17/cJSON_Utils.c:808-1037 | a patch that fails leaves the document as it was, except that a "replace" or a "move" may have taken its child out already |
| JsonPatch.InsertNothing | Fabric_Defect_Detection_END/packages/cJSON-v1.7.17/cJSON_Utils.c:948-1037 | an insertion that reports an error leaves the document unchanged |
| PatchDocument.Document.Apply | Fabric_Defect_Detection_END/packages/cJSON-v1.7.17/cJSON_Utils.c:808-1037 | `apply_patch` on a document whose objects remember where the head of their member list points: all six operations, every status code, partial effects of failures, the sorting a `test` does and what a later `add` makes of it |
| PatchDocument.Document.ApplyAll | Fabric_Defect_Detection_END/packages/cJSON-v1.7.17/cJSON_Utils.c:1039-1095 | patches are applied in order up to the first failure, whose status is returned; without a `test` the document reads exactly as `ApplyPatches` says and stays intact |
| LoosePatch.PatchesAgree | Fabric_Defect_Detection_END/packages/cJSON-v1.7.17/cJSON_Utils.c:808-1095 | on intact documents, patch lists without a `test` do what they do to the plain tree, whatever they contain and however they fail |
| TestedPatches.TestMeans | Fabric_Defect_Detection_END/packages/cJSON-v1.7.17/cJSON_Utils.c:605-691 | a `test` succeeds if and only if the node is there and equal up to member order, and whatever its answer the document means what it meant before |
| TestedPatches.TestThenAdd | Fabric_Defect_Detection_END/packages/cJSON-v1.7.17/cJSON_Utils.c:808-1095 | a successful `test` of an object followed by the `add` of a new member to it: both report success, and the member is there if and only if the first key of the object was strictly least and the last strictly greatest; with the first key not least the document is unchanged |
| TestedPatches.LostMember | Fabric_Defect_Detection_END/packages/cJSON-v1.7.17/cJSON_Utils.c:808-1095 | the smallest failing input |
| TestedPatches.CompareKeeps | Fabric_Defect_Detection_END/packages/cJSON-v1.7.17/cJSON_Utils.c:605-691 | what the comparison leaves behind means what it meant, in both modes |
| LoosePatch.CompareAnswers | Fabric_Defect_Detection_END/packages/cJSON-v1.7.17/cJSON_Utils.c:605-691 | comparing in place gives the answer of the comparison of the plain trees |
| PatchEngine.Recorder.Compose | Fabric_Defect_Detection_END/packages/cJSON-v1.7.17/cJSON_Utils.c:1097-1135 | appends one patch object that performs the edit when it is applied to any document, in either mode |
| PatchEngine.Recorder.Create | Fabric_Defect_Detection_END/packages/cJSON-v1.7.17/cJSON_Utils.c:1142-1280 | `create_patches` appends exactly the patch objects of the edit list `Diff` |
| PatchEngine.Recorder.CreateForItems | Fabric_Defect_Detection_END/packages/cJSON-v1.7.17/cJSON_Utils.c:1171-1214 | the three array loops against `DiffItems` |
| PatchEngine.Recorder.CreateForMembers | Fabric_Defect_Detection_END/packages/cJSON-v1.7.17/cJSON_Utils.c:1216-1275 | the member loop against `DiffMembers` |
| JsonCompare.CompareDecidesEquality | Fabric_Defect_Detection_END/packages/cJSON-v1.7.17/cJSON_Utils.c:605-691 | `compare_json` answers true if and only if the two trees are equal up to member order, in both modes, for keys that the mode does not confuse |
| JsonCompare.SameNumberExact | Fabric_Defect_Detection_END/packages/cJSON-v1.7.17/cJSON_Utils.c:113-118 | on ints the relative tolerance never blurs two values |
| JsonCompare.ValueIntTruncates | Fabric_Defect_Detection_END/packages/cJSON-v1.7.17/cJSON.c:364-378 | `valueint` drops the fraction and stops at the two ends of the int range |
| JsonCompare.BothHalvesCount | Fabric_Defect_Detection_END/packages/cJSON-v1.7.17/cJSON_Utils.c:1157-1162 | close numbers may have different ints, and different numbers the same int: neither test can be left out |
| JsonPointer.PointerRoundTrip | Fabric_Defect_Detection_END/packages/cJSON-v1.7.17/cJSON_Utils.c:199-347 | looking up the pointer built for any node leads back to that node, case-sensitively for distinct keys of any content and without case for keys that case does not confuse |
| JsonPointer.CompareEncoded | Fabric_Defect_Detection_END/packages/cJSON-v1.7.17/cJSON_Utils.c:121-155 | a name matches an escaped name followed by any rest if and only if the two names are equal in the comparison mode |
| JsonPointer.EncodeStringAsPointer | Fabric_Defect_Detection_END/packages/cJSON-v1.7.17/cJSON_Utils.c:158-197 | the escape loop fills exactly the length computed beforehand and its terminator, and nothing else |
| JsonPointer.EncodeShape | Fabric_Defect_Detection_END/packages/cJSON-v1.7.17/cJSON_Utils.c:158-197 | the computed length is the length of the escaped text, which never contains `/` |
| JsonPointer.EscapesOf | Fabric_Defect_Detection_END/packages/cJSON-v1.7.17/cJSON_Utils.c:158-197 | `~` is written `~0`, `/` is written `~1`, every other byte as itself |
| JsonPointer.FindPointer | Fabric_Defect_Detection_END/packages/cJSON-v1.7.17/cJSON_Utils.c:199-260 | the depth-first search returns the pointer of a node exactly when the node is in the tree |
| JsonPointer.DecodeDecimal | Fabric_Defect_Detection_END/packages/cJSON-v1.7.17/cJSON_Utils.c:275-300 | the index written with `%lu` is read back, for every index that fits a word |
| JsonPointer.IndexAccepted | Fabric_Defect_Detection_END/packages/cJSON-v1.7.17/cJSON_Utils.c:275-300 | a token is taken for an index if and only if it is one in section 4 of RFC 6901, or is empty, or starts with a digit other than zero and holds no byte below the digits |
| JsonPointer.LetterIndex | Fabric_Defect_Detection_END/packages/cJSON-v1.7.17/cJSON_Utils.c:275-300 | the token `1a` is taken for index 59 |
| JsonPointer.DecodeNumeral | Fabric_Defect_Detection_END/packages/cJSON-v1.7.17/cJSON_Utils.c:275-300 | a numeral without further leading zeros is read as its value modulo 2^32 |
| JsonPointer.SelectOwnToken | Fabric_Defect_Detection_END/packages/cJSON-v1.7.17/cJSON_Utils.c:302-347 | a child is selected by its own token, whatever pointer follows it |
| JsonPointer.DecodePointerInPlace | Fabric_Defect_Detection_END/packages/cJSON-v1.7.17/cJSON_Utils.c:360-391 | the in-place loop leaves exactly `DecodeFrom` of the buffer: ordinary bytes are not moved down |
| JsonPointer.EscapeFreeSurvives | Fabric_Defect_Detection_END/packages/cJSON-v1.7.17/cJSON_Utils.c:360-391 | a name without `~` and `/` is read back from its own escape |
| JsonPointer.SurvivesExactly | Fabric_Defect_Detection_END/packages/cJSON-v1.7.17/cJSON_Utils.c:360-391 | the in-place decoder undoes the encoder on a name if and only if the name has no `/` and each byte other than `~` stands in the escape where it stands in the name |
| JsonPointer.SlashNeverSurvives | Fabric_Defect_Detection_END/packages/cJSON-v1.7.17/cJSON_Utils.c:360-391 | in particular never on a name with a `/` |
| JsonPointer.TildeEitherWay | Fabric_Defect_Detection_END/packages/cJSON-v1.7.17/cJSON_Utils.c:360-391 | names with a `~` fall on both sides |
| KeySort.SortPermutes | Fabric_Defect_Detection_END/packages/cJSON-v1.7.17/cJSON_Utils.c:485-594 | the sorted list is a permutation of the members |
| KeySort.SortSorts | Fabric_Defect_Detection_END/packages/cJSON-v1.7.17/cJSON_Utils.c:485-594 | the sorted list never decreases by key, in both comparison modes |
| Bytes.StrCmpOrders | Fabric_Defect_Detection_END/packages/cJSON-v1.7.17/cJSON_Utils.c:84-110 | the order of keys is that of their bytes: a proper prefix comes first, otherwise the smaller byte at the first difference decides |
| Bytes.LowerCases | Fabric_Defect_Detection_END/packages/cJSON-v1.7.17/cJSON_Utils.c:84-110 | without case, the letters from A to Z, and nothing else, count as their lower case |
| ListSort.SortList | Fabric_Defect_Detection_END/packages/cJSON-v1.7.17/cJSON_Utils.c:485-594 | the recursive relinking returns a null-terminated, doubly linked chain of the same nodes in exactly the order of the merge sort; the head keeps its old back pointer if it was the head before and loses it otherwise |
| ListSort.SortObject | Fabric_Defect_Detection_END/packages/cJSON-v1.7.17/cJSON_Utils.c:596-603 | the children stay the same nodes in key order, and head.prev = tail survives if and only if, before the sort, the first key is strictly least and the last strictly greatest; otherwise head.prev is stale or null |
| ListSort.AddItem | Fabric_Defect_Detection_END/packages/cJSON-v1.7.17/cJSON.c:1966-1997 | the append, wherever the head points: behind the tail, nowhere at all when the pointer was lost, or behind a stale child with the rest cut off |
| ListSort.SortLoose | Fabric_Defect_Detection_END/packages/cJSON-v1.7.17/cJSON_Utils.c:596-603 | the sort of children whose head may point back anywhere: which node comes where, and where the new head points |
| ListSort.DetachLoose | Fabric_Defect_Detection_END/packages/cJSON-v1.7.17/cJSON.c:2197-2231 | taking out any child, wherever the head points: the pointer follows the child it led to, is mended when the last child goes, and dangles when its child goes |
| LooseList.OrderSorts | Fabric_Defect_Detection_END/packages/cJSON-v1.7.17/cJSON_Utils.c:485-594 | the sorted list is the list in an order computed from the keys alone |
| LooseList.BackAfterSort | Fabric_Defect_Detection_END/packages/cJSON-v1.7.17/cJSON_Utils.c:485-594 | after a sort the head's pointer leads to the tail if and only if the first key was strictly least and the last strictly greatest, and is lost if and only if the first was not strictly least |
| ListSort.SortThenAppend | Fabric_Defect_Detection_END/packages/cJSON-v1.7.17/cJSON_Utils.c:596-603 | an append after a sort is kept if and only if the first key was strictly least and the last strictly greatest beforehand; with the first key not least the item is lost though success is reported |
| KeySort.EndsStay | Fabric_Defect_Detection_END/packages/cJSON-v1.7.17/cJSON_Utils.c:485-594 | among different members, the sort leaves the first member first if and only if its key is strictly least, and the last one last if and only if its key is strictly greatest: of equal keys the later half goes first |
| ListSort.MergeLists | Fabric_Defect_Detection_END/packages/cJSON-v1.7.17/cJSON_Utils.c:540-594 | the merge loop and the append of the rest relink two disjoint chains into their merge |
| ListSort.Middle | Fabric_Defect_Detection_END/packages/cJSON-v1.7.17/cJSON_Utils.c:510-530 | the two-pointer walk finds position (n + 1) / 2 |
| ListSort.IsStrict | Fabric_Defect_Detection_END/packages/cJSON-v1.7.17/cJSON_Utils.c:499-508 | the scan that leaves sorted lists alone is right |
| JsonTree.SortMembers | Fabric_Defect_Detection_END/packages/cJSON-v1.7.17/cJSON_Utils.c:596-603 | sorting a tidy object keeps its meaning and puts the keys in strictly increasing byte order |
| JsonTree.FindKeyExact | Fabric_Defect_Detection_END/packages/cJSON-v1.7.17/cJSON.c:1890-1920 | among keys that case does not confuse, either lookup finds the member with exactly that name |
| MergePatch.MergeIsRfc | Fabric_Defect_Detection_END/packages/cJSON-v1.7.17/cJSON_Utils.c:1322-1380 | `merge_patch` means the merge of section 2 of RFC 7396, in both modes, and keeps keys distinct |
| MergePatch.RfcIdempotent | Fabric_Defect_Detection_END/packages/cJSON-v1.7.17/cJSON_Utils.c:1322-1380 | that merge is idempotent, for every target and patch |
| MergePatch.MergeIdempotent | Fabric_Defect_Detection_END/packages/cJSON-v1.7.17/cJSON_Utils.c:1322-1380 | applying a merge patch twice means the same as applying it once |
| MergePatch.GenerateMeans | Fabric_Defect_Detection_END/packages/cJSON-v1.7.17/cJSON_Utils.c:1392-1472 | the generated patch means the difference of the two values, and for two objects there is none if and only if they are equal |
| MergePatch.MergePatchRoundTrip | Fabric_Defect_Detection_END/packages/cJSON-v1.7.17/cJSON_Utils.c:1322-1472 | merging a generated patch into a copy of `from` made before the generation gives `to` if and only if no null member of `to` gets in the way |
| MergePatch.NullFreeIsSafe | Fabric_Defect_Detection_END/packages/cJSON-v1.7.17/cJSON_Utils.c:1392-1472 | in particular it does whenever `to` has no null object member |
| MergePatch.MergeBack | Fabric_Defect_Detection_END/packages/cJSON-v1.7.17/cJSON_Utils.c:1392-1472 | the same on values, without reference to the code: the condition is necessary and sufficient |
| MergePatch.CaseNeutralExact | Fabric_Defect_Detection_END/packages/cJSON-v1.7.17/cJSON_Utils.c:1392-1472 | the exact condition, in either mode: every pair of trees over a key set whose second has no null member merges back if and only if case never changes how two of its keys compare (below the first level the generation sorts without case and compares keys with it) |
| MergePatch.FoldedTogether | Fabric_Defect_Detection_END/packages/cJSON-v1.7.17/cJSON_Utils.c:1322-1380 | two keys equal up to case: the second added replaces the first |
| MergePatch.WalkedOutOfOrder | Fabric_Defect_Detection_END/packages/cJSON-v1.7.17/cJSON_Utils.c:1392-1472 | two keys that case reorders: the walk nulls a key it has just added |
| MergePatch.OutOfOrderBelow | Fabric_Defect_Detection_END/packages/cJSON-v1.7.17/cJSON_Utils.c:1392-1472 | the same failure one level down in the case-sensitive mode |
| MergePatch.FoldedBelow | Fabric_Defect_Detection_END/packages/cJSON-v1.7.17/cJSON_Utils.c:1392-1472 | two levels down in the case-sensitive mode a renamed key is missed by the comparison without case |
| MergePatch.ApplyMergePatch | Fabric_Defect_Detection_END/packages/cJSON-v1.7.17/cJSON_Utils.c:1322-1380 | the member loop computes `Merge` |
| MergePatch.BuildMergePatch | Fabric_Defect_Detection_END/packages/cJSON-v1.7.17/cJSON_Utils.c:1392-1472 | the generation, recursion included, computes `Generate` |
| MergePatch.BuildMembers | Fabric_Defect_Detection_END/packages/cJSON-v1.7.17/cJSON_Utils.c:1410-1472 | the walk over both sorted member lists |
| JsonGrammar.AcceptedExactly | Fabric_Defect_Detection_END/packages/cJSON-v1.7.17/cJSON.c:1105-1188 | with the check for trailing bytes the parser accepts exactly the texts of the grammar, with any white space between the tokens, around the value and behind a byte order mark, that are nested at most 1000 deep, and gives each its value |
| JsonGrammar.ValueRead | Fabric_Defect_Detection_END/packages/cJSON-v1.7.17/cJSON.c:1322-1722 | every text of the grammar followed by a delimiter is read as its value at any depth, exactly up to the nesting limit, and the delimiter is left unread |
| JsonGrammar.ValueIsProper | Fabric_Defect_Detection_END/packages/cJSON-v1.7.17/cJSON.c:1322-1722 | whatever is read, at any depth, is a text of the grammar that means the value, with the rest of the input behind it |
| JsonGrammar.ParsedIsSpelled | Fabric_Defect_Detection_END/packages/cJSON-v1.7.17/cJSON.c:1105-1183 | whatever text is parsed starts with a text of the grammar that means the result, and without the check anything may follow |
| JsonTokens.StringToken | Fabric_Defect_Detection_END/packages/cJSON-v1.7.17/cJSON.c:783-909 | a string in any spelling of section 7 of RFC 8259, with short escapes, code units in either case and surrogate pairs, is read as its content up to the first NUL, and reading stops right behind it |
| JsonTokens.StopsAtNul | Fabric_Defect_Detection_END/packages/cJSON-v1.7.17/cJSON.c:783-909 | C code sees of a string its bytes before the first NUL |
| JsonTokens.ShortEscapes | Fabric_Defect_Detection_END/packages/cJSON-v1.7.17/cJSON.c:846-880 | the eight short escapes, and no other, with the bytes they stand for |
| JsonTokens.HexDigits | Fabric_Defect_Detection_END/packages/cJSON-v1.7.17/cJSON.c:625-658 | the hexadecimal digits in both cases with their values; no other byte is one |
| JsonTokens.EscapeAccepted | Fabric_Defect_Detection_END/packages/cJSON-v1.7.17/cJSON.c:662-781 | a `\u` escape is refused if and only if it is half of a surrogate pair without the other half; four bytes that are not all digits pass for U+0000 |
| JsonTokens.NumberToken | Fabric_Defect_Detection_END/packages/cJSON-v1.7.17/cJSON.c:310-384 | a number of section 6 of RFC 8259 of at most 63 bytes is read as its value: sign, digits, fraction and exponent |
| JsonTokens.PowersOfTen | Fabric_Defect_Detection_END/packages/cJSON-v1.7.17/cJSON.c:310-384 | the powers of ten that scale a number |
| JsonTokens.NumberParts | Fabric_Defect_Detection_END/packages/cJSON-v1.7.17/cJSON.c:310-384 | whatever is read as a number is a sign, digits, perhaps a point and digits, perhaps an exponent, and has that value |
| JsonTokens.LongNumber | Fabric_Defect_Detection_END/packages/cJSON-v1.7.17/cJSON.c:310-384 | of a longer run of digits only the first 63 are read |
| JsonRoundTrip.TextIsLayout | Fabric_Defect_Detection_END/packages/cJSON-v1.7.17/cJSON.c:1549-1835 | printed text is the tree in one layout of the grammar: nothing between tokens without formatting; with it a blank behind each comma of an array, each member on its own line indented by its depth, a tab behind each colon |
| JsonRoundTrip.Indentation | Fabric_Defect_Detection_END/packages/cJSON-v1.7.17/cJSON.c:1724-1835 | one tab for each level behind a line break |
| JsonRoundTrip.PrintThenParse | Fabric_Defect_Detection_END/packages/cJSON-v1.7.17/cJSON.c:783-1835 | for every tree of null, booleans, int-range integers, NUL-free strings, arrays and objects, printing formatted or not and parsing, with or without the check for trailing bytes, gives the identical tree if and only if it is nested at most 1000 deep |
| JsonRoundTrip.ValueReadBack | Fabric_Defect_Detection_END/packages/cJSON-v1.7.17/cJSON.c:1322-1448 | any printed value followed by a delimiter is read back at any depth and leaves the delimiter unread |
| JsonRoundTrip.StringRoundTrip | Fabric_Defect_Detection_END/packages/cJSON-v1.7.17/cJSON.c:783-1031 | an escaped string is read back byte for byte and reading stops right behind it |
| JsonRoundTrip.NumberRoundTrip | Fabric_Defect_Detection_END/packages/cJSON-v1.7.17/cJSON.c:310-384 | a printed int is read back and reading stops right behind it |
| JsonBounds.NestingRespected | Fabric_Defect_Detection_END/packages/cJSON-v1.7.17/cJSON.c:1451-1721 | whatever the input, a parsed value is nested no deeper than the limit allows where it stands |
| JsonBounds.StringFits | Fabric_Defect_Detection_END/packages/cJSON-v1.7.17/cJSON.c:783-909 | every unescaped string and its terminator fit the size the pre-scan computes, even where the two passes disagree about where escapes start |
| JsonBounds.PassesDisagree | Fabric_Defect_Detection_END/packages/cJSON-v1.7.17/cJSON.c:662-909 | a text on which they do disagree |
| JsonBounds.EscapesDecode | Fabric_Defect_Detection_END/packages/cJSON-v1.7.17/cJSON.c:662-780 | every code point that is not a surrogate, written as one `\u` escape or a pair of them with digits in either case, becomes its UTF-8 bytes |
| JsonBounds.Utf8RoundTrip | Fabric_Defect_Detection_END/packages/cJSON-v1.7.17/cJSON.c:728-774 | the encoding can be inverted and has the lead and continuation bytes of section 3 of RFC 3629 |
| Parser.ParseText | Fabric_Defect_Detection_END/packages/cJSON-v1.7.17/cJSON.c:1089-1188 | the entry point, with byte order mark and trailing check, returns the tree `Parse` describes |
| Parser.ParseBuffer.SkipWhitespace | Fabric_Defect_Detection_END/packages/cJSON-v1.7.17/cJSON.c:1048-1071 | the cursor ends where `Skip` says, always inside the buffer |
| Parser.ParseBuffer.FindEnd | Fabric_Defect_Detection_END/packages/cJSON-v1.7.17/cJSON.c:796-818 | the pre-scan finds the closing quote and counts the escapes |
| Parser.ParseBuffer.ParseHex4 | Fabric_Defect_Detection_END/packages/cJSON-v1.7.17/cJSON.c:625-658 | four hexadecimal digits, or zero |
| Parser.ParseBuffer.WriteUtf8 | Fabric_Defect_Detection_END/packages/cJSON-v1.7.17/cJSON.c:728-774 | the backward loop writes the UTF-8 bytes |
| Parser.ParseBuffer.ReadUtf16 | Fabric_Defect_Detection_END/packages/cJSON-v1.7.17/cJSON.c:662-780 | a `\u` escape or a pair is decoded into the allocated buffer, or refused |
| Parser.ParseBuffer.ReadString | Fabric_Defect_Detection_END/packages/cJSON-v1.7.17/cJSON.c:831-893 | the second pass writes exactly the unescaped bytes and a terminator inside the buffer the pre-scan sized, and never reads past the closing quote |
| Parser.ParseBuffer.ParseString | Fabric_Defect_Detection_END/packages/cJSON-v1.7.17/cJSON.c:783-909 | both passes together agree with the description, cursor included |
| Parser.ParseBuffer.ParseNumber | Fabric_Defect_Detection_END/packages/cJSON-v1.7.17/cJSON.c:310-384 | the 63-byte copy and the conversion agree with the description |
| Parser.ParseBuffer.ParseValue | Fabric_Defect_Detection_END/packages/cJSON-v1.7.17/cJSON.c:1322-1374 | dispatch; the cursor and the depth after success are those described, and the cursor stays in the buffer after failure |
| Parser.ParseBuffer.ParseArray | Fabric_Defect_Detection_END/packages/cJSON-v1.7.17/cJSON.c:1451-1546 | the array branch |
| Parser.ParseBuffer.ParseElements | Fabric_Defect_Detection_END/packages/cJSON-v1.7.17/cJSON.c:1483-1522 | the element loop |
| Parser.ParseBuffer.ParseObject | Fabric_Defect_Detection_END/packages/cJSON-v1.7.17/cJSON.c:1611-1721 | the object branch |
| Parser.ParseBuffer.ParsePairs | Fabric_Defect_Detection_END/packages/cJSON-v1.7.17/cJSON.c:1643-1699 | the member loop |
| Printer.PrintPreallocated | Fabric_Defect_Detection_END/packages/cJSON-v1.7.17/cJSON.c:1301-1319 | succeeds if and only if no item is Invalid and the buffer holds two bytes more than the text, and then holds exactly the text and its terminator |
| Printer.Print | Fabric_Defect_Detection_END/packages/cJSON-v1.7.17/cJSON.c:1197-1257 | returns exactly the text if and only if no item is Invalid and the text and two bytes fit the int range |
| Printer.PrintBuffer.Ensure | Fabric_Defect_Detection_END/packages/cJSON-v1.7.17/cJSON.c:449-532 | room is given if and only if the request and one byte fit; the bytes written so far survive the move |
| Printer.PrintBuffer.UpdateOffset | Fabric_Defect_Detection_END/packages/cJSON-v1.7.17/cJSON.c:535-545 | the cursor moves to the terminator |
| Printer.PrintBuffer.PrintString | Fabric_Defect_Detection_END/packages/cJSON-v1.7.17/cJSON.c:912-1031 | counting, reserving and escaping write exactly the quoted string; success is decided by the exact room |
| Printer.PrintBuffer.PrintNumber | Fabric_Defect_Detection_END/packages/cJSON-v1.7.17/cJSON.c:555-622 | int branch: the decimal text, with the cursor moved behind it |
| Printer.PrintBuffer.PrintValue | Fabric_Defect_Detection_END/packages/cJSON-v1.7.17/cJSON.c:1377-1448 | the text of the value, appended to what was written; success if and only if no item is Invalid and two more bytes than the text fit |
| Printer.PrintBuffer.PrintArray | Fabric_Defect_Detection_END/packages/cJSON-v1.7.17/cJSON.c:1549-1608 | the same for arrays |
| Printer.PrintBuffer.PrintObject | Fabric_Defect_Detection_END/packages/cJSON-v1.7.17/cJSON.c:1724-1835 | the same for objects, with indentation |
| Printer.EscapedLength | Fabric_Defect_Detection_END/packages/cJSON-v1.7.17/cJSON.c:935-962 | the counted length is the length of the escaped text, and nothing is escaped when the count is zero |
| Printer.TextIsClean | Fabric_Defect_Detection_END/packages/cJSON-v1.7.17/cJSON.c:1377-1448 | printed text never contains a NUL, which `update_offset` relies on |
| SiblingList.Container.Append | Fabric_Defect_Detection_END/packages/cJSON-v1.7.17/cJSON.c:1966-1997 | appends, keeping next and prev mutual, last.next null and head.prev = last |
| SiblingList.Container.Detach | Fabric_Defect_Detection_END/packages/cJSON-v1.7.17/cJSON.c:2197-2231 | removes exactly that child and clears its pointers |
| SiblingList.Container.Insert | Fabric_Defect_Detection_END/packages/cJSON-v1.7.17/cJSON.c:2273-2305 | inserts at an index; past the end it appends; a negative index is refused |
| SiblingList.Container.InsertStrict | Fabric_Defect_Detection_END/packages/cJSON-v1.7.17/cJSON_Utils.c:694-729 | the variant of the patch code: past the end it is refused |
| SiblingList.Container.Replace | Fabric_Defect_Detection_END/packages/cJSON-v1.7.17/cJSON.c:2307-2354 | puts the replacement in the same place and clears the pointers of the old child |
| SiblingList.Container.DetachAt | Fabric_Defect_Detection_END/packages/cJSON-v1.7.17/cJSON.c:2233-2241 | detach by index, null when there is none |
| SiblingList.Container.ReplaceAt | Fabric_Defect_Detection_END/packages/cJSON-v1.7.17/cJSON.c:2356-2364 | replace by index |
| SiblingList.Container.Get | Fabric_Defect_Detection_END/packages/cJSON-v1.7.17/cJSON.c:1861-1878 | the child at an index, or null |
| SiblingList.PerformAll | Fabric_Defect_Detection_END/packages/cJSON-v1.7.17/cJSON.c:1966-2354 | any sequence of append, insert, detach and replace keeps the list well formed and acts on the children as the same edits act on a sequence |
| HeapChain.RunKeepsWellFormed | Fabric_Defect_Detection_END/rt-thread/src/mem.c:125-560 | every run of alloc, realloc and free on live pointers keeps the chain tiling the arena with no two free neighbours |
| HeapChain.PerformKeeps | Fabric_Defect_Detection_END/rt-thread/src/mem.c:279-560 | one request keeps the chain well formed and every other live block in place, and a returned pointer is live |
| HeapChain.PlugWellFormed | Fabric_Defect_Detection_END/rt-thread/src/mem.c:125-163 | `plug_holes` restores the invariant around a newly free block and changes neither the used span nor the lowest free block |
| HeapChain.ReleaseWellFormed | Fabric_Defect_Detection_END/rt-thread/src/mem.c:516-560 | freeing restores the invariant and accounts for exactly the freed span |
| HeapChain.ShrinkWellFormed | Fabric_Defect_Detection_END/rt-thread/src/mem.c:468-495 | a shrinking realloc restores the invariant |
| HeapChain.AllocThenFree | Fabric_Defect_Detection_END/rt-thread/src/mem.c:279-560 | freeing a just-allocated block restores the chain, and with it the lowest free block and the used span |
| HeapChain.NothingUsed | Fabric_Defect_Detection_END/rt-thread/src/mem.c:516-560 | used span zero means one free block spans the arena |
| HeapChain.BlocksDisjoint | Fabric_Defect_Detection_END/rt-thread/src/mem.c:279-407 | two blocks never share a byte |
| HeapChain.AllocRoom | Fabric_Defect_Detection_END/rt-thread/src/mem.c:279-407 | the returned block has the requested room if and only if rounding the size up does not wrap 32 bits |
| HeapChain.ReallocFailure | Fabric_Defect_Detection_END/rt-thread/src/mem.c:422-507 | a failed non-zero realloc leaves the chain unchanged if and only if the rounded size did not wrap to zero; otherwise it frees the block |
| HeapChain.ReallocRoom | Fabric_Defect_Detection_END/rt-thread/src/mem.c:422-507 | a successful realloc returns a live block with at least the requested room |
| HeapChain.ReallocFails | Fabric_Defect_Detection_END/rt-thread/src/mem.c:422-507 | exactly when a reallocation of a live block fails, for every size: the rounded size wraps or exceeds the arena, or the block can neither stay nor be split and no free block fits; for a size that the block already holds only the last |
| HeapChain.ShrinkCanFail | Fabric_Defect_Detection_END/rt-thread/src/mem.c:457-507 | a heap of one live block that refuses to give back its last four bytes |
| HeapLive.AllocFails | Fabric_Defect_Detection_END/rt-thread/src/mem.c:279-407 | an allocation returns null if and only if the size is zero or no free block has room for the size rounded up to a multiple of 4 and to at least 12 bytes; then nothing changes |
| HeapLive.AllocTakes | Fabric_Defect_Detection_END/rt-thread/src/mem.c:279-407 | otherwise it takes the lowest such block from its start, leaves the rest free if it makes a block of at least 24 bytes, and changes no other live block |
| HeapLive.AllocIsTight | Fabric_Defect_Detection_END/rt-thread/src/mem.c:279-407 | it never gives more than the rounded size and 23 bytes |
| HeapLive.FreeTakesOne | Fabric_Defect_Detection_END/rt-thread/src/mem.c:516-560 | freeing takes exactly that block from the live blocks |
| HeapLive.ReallocExactly | Fabric_Defect_Detection_END/rt-thread/src/mem.c:422-507 | a reallocation leaves the block as it is, cuts it to exactly the rounded size when more than 24 bytes are over, or moves it to where an allocation would be |
| HeapLive.ReallocAtTheEnds | Fabric_Defect_Detection_END/rt-thread/src/mem.c:422-447 | without an old block it is an allocation; to size zero, or above 2^32 - 4, it frees |
| HeapLive.LiveBlocksDecide | Fabric_Defect_Detection_END/rt-thread/src/mem.c:125-560 | two well-formed chains of one arena with the same live blocks are the same chain, so these statements fix the whole heap |
| HeapLive.FreshHeapServes | Fabric_Defect_Detection_END/rt-thread/src/mem.c:279-407 | a hundred bytes from a fresh heap of 512 are given at its start |
| Heap.SmallHeap.PlugHoles | Fabric_Defect_Detection_END/rt-thread/src/mem.c:125-163 | the header rewrites in the byte arena: links, lowest free block, payloads of all live blocks |
| Heap.SmallHeap.Alloc | Fabric_Defect_Detection_END/rt-thread/src/mem.c:279-408 | the search from `lfree` with its early cutoff returns the lowest free block that fits over the whole arena, null only when none fits; the block is live and has the requested room unless rounding wraps; failure changes nothing; no payload byte of a live block changes |
| Heap.SmallHeap.Free | Fabric_Defect_Detection_END/rt-thread/src/mem.c:516-560 | state, coalescing, `lfree` and `used`; payloads of the other live blocks kept |
| Heap.SmallHeap.Realloc | Fabric_Defect_Detection_END/rt-thread/src/mem.c:422-507 | null, zero, too large, in place, shrinking and moving paths; a successful call returns a live block with at least the requested bytes and keeps the first min(old, new) bytes, and a failed one with a non-zero rounded size changes nothing |
| Heap.SmallHeap.Trim | Fabric_Defect_Detection_END/rt-thread/src/mem.c:468-495 | the shrinking path |
| Heap.SmallHeap.Move | Fabric_Defect_Detection_END/rt-thread/src/mem.c:498-507 | the moving path: allocate, copy, free |
| Heap.SmallHeap.AdvanceLowest | Fabric_Defect_Detection_END/rt-thread/src/mem.c:385-392 | the loop that moves `lfree` up |
| Heap.StartOfSearch | Fabric_Defect_Detection_END/rt-thread/src/mem.c:317-322 | nothing below `lfree` is free, so the search may start there |
| Heap.NothingFits | Fabric_Defect_Detection_END/rt-thread/src/mem.c:317-322 | past the cutoff no block can be large enough |
| Heap.Execute | Fabric_Defect_Detection_END/rt-thread/src/mem.c:279-560 | any run of requests on a heap keeps headers, links, `lfree`, `used` and `max` consistent |
| Heap.Init | Fabric_Defect_Detection_END/rt-thread/src/mem.c:178-242 | places the control object and the heap, or fails when there is no room for two headers |
| PoolModel.PoolIsSafe | Fabric_Defect_Detection_END/rt-thread/src/mempool.c:319-465 | over every interleaving of alloc, free, timeout and re-run steps: free count plus held blocks equal the total, no block is both, and while a thread waits the free blocks never outnumber the threads already woken; nothing is free while threads wait and all woken ones have run |
| PoolModel.RunKeeps | Fabric_Defect_Detection_END/rt-thread/src/mempool.c:319-465 | the same invariant from any state that has it |
| PoolModel.HeldIsExclusive | Fabric_Defect_Detection_END/rt-thread/src/mempool.c:319-465 | a held block is not handed out again before it is freed, whatever the other threads do |
| PoolModel.AllocAnswers | Fabric_Defect_Detection_END/rt-thread/src/mempool.c:336-400 | an allocation takes a block if and only if one is free, the one freed last; with none free it fails if and only if it may not wait |
| PoolModel.FreeThenAlloc | Fabric_Defect_Detection_END/rt-thread/src/mempool.c:319-465 | with nobody waiting, freeing a block and allocating gives the block and the old state back |
| PoolModel.LastInFirstServed | Fabric_Defect_Detection_END/rt-thread/src/mempool.c:319-465 | the thread suspended last is woken by the next free and takes that block unless another thread gets in between |
| PoolModel.WaitsForever | Fabric_Defect_Detection_END/rt-thread/src/mempool.c:336-400 | a thread that waits without a timeout leaves only with a block, over every interleaving |
| PoolModel.TimeAddsUp | Fabric_Defect_Detection_END/rt-thread/src/mempool.c:371-385 | while a thread with a timeout waits, what it has slept and what is left add up to what it asked for, over every interleaving |
| PoolModel.WaitStep | Fabric_Defect_Detection_END/rt-thread/src/mempool.c:336-400 | a waiting thread leaves only with a block, by its timer, or with its time used up and no block free |
| PoolModel.WithoutOne | Fabric_Defect_Detection_END/rt-thread/src/mempool.c:336-400 | a thread whose timer fires leaves the list and the others keep their order |
| Pool.Mempool.constructor | Fabric_Defect_Detection_END/rt-thread/src/mempool.c:89-136 | the loop over the area links all blocks in address order |
| Pool.BlocksFit | Fabric_Defect_Detection_END/rt-thread/src/mempool.c:105-120 | every block is as large as asked, inside the area and ends before the next, and its address is aligned if and only if the area is |
| Pool.NoFurtherBlock | Fabric_Defect_Detection_END/rt-thread/src/mempool.c:105-120 | no further block would fit the area |
| Pool.LastStoreInside | Fabric_Defect_Detection_END/rt-thread/src/mempool.c:89-136 | the store that ends the free list falls inside the area if and only if the area holds one block with its header word |
| Pool.Mempool.EnterRegion | Fabric_Defect_Detection_END/rt-thread/src/mempool.c:336-400 | the interrupt-disabled part of an allocation: take the first free block, give up, or suspend at the head of the list |
| Pool.Mempool.Alloc | Fabric_Defect_Detection_END/rt-thread/src/mempool.c:319-407 | the atomic entry step |
| Pool.Mempool.Rerun | Fabric_Defect_Detection_END/rt-thread/src/mempool.c:371-386 | the step of a woken thread: failure after a timeout, else the remaining time and another try |
| Pool.Mempool.Free | Fabric_Defect_Detection_END/rt-thread/src/mempool.c:415-465 | the block goes in front of the free list and the thread suspended last is woken |
| Pool.Perform | Fabric_Defect_Detection_END/rt-thread/src/mempool.c:319-465 | any interleaving on the header words agrees with the transition system |
| Frames.FrameFromAnywhere | Fabric_Defect_Detection_END/applications/model_sd_start.c:134-175 | self-stabilisation, the sufficient half: from every state within the window bound, and so after any history, a frame whose payload holds no tail leaves exactly that payload in the image buffer, returns to idle and completes nothing else |
| Frames.FrameFromAnywhereExactly | Fabric_Defect_Detection_END/applications/model_sd_start.c:134-175 | tail-free payloads are exactly those received after every history of the line: for any other payload there is a history after which its frame completes a wrong image |
| Frames.FloodArrives | Fabric_Defect_Detection_END/applications/model_sd_start.c:134-175 | that history brings the receiver from its start into the state in which it is misled |
| Frames.FrameFromIdle | Fabric_Defect_Detection_END/applications/model_sd_start.c:134-175 | from idle this holds for every payload |
| Frames.FeedSplit | Fabric_Defect_Detection_END/applications/model_sd_start.c:134-175 | the result does not depend on how the stream is cut into callbacks |
| Frames.LineReceived | Fabric_Defect_Detection_END/applications/model_sd_start.c:134-175 | from idle, a line of any number of frames with noise between them yields exactly the images sent, in order |
| Frames.FramesFromAnywhere | Fabric_Defect_Detection_END/applications/model_sd_start.c:134-175 | the same from any state within the window bound without noise, once the first payload holds no tail |
| Frames.NothingInvented | Fabric_Defect_Detection_END/applications/model_sd_start.c:134-175 | every completed image is the clamped 1024 bytes in front of a tail, and a head byte came before them |
| Frames.FirstTailCompletes | Fabric_Defect_Detection_END/applications/model_sd_start.c:134-175 | from idle the head byte 0xA6 opens a frame and the first 0x5D 0x5B with 1024 bytes in front of it closes it; those bytes, each at most 127, are the one image completed |
| Frames.FeedOpen | Fabric_Defect_Detection_END/applications/model_sd_start.c:134-175 | until then nothing is completed and the newest bytes are kept |
| Frames.WireFormat | OpenMV/all_endhaha.py:57-92 | a frame is 1027 bytes: the head, the image, the two tail bytes |
| Frames.FeedBounded | Fabric_Defect_Detection_END/applications/model_sd_start.c:134-175 | the receiver never holds more than 1025 bytes between two calls |
| Receiver.FrameReceiver.OnByte | Fabric_Defect_Detection_END/applications/model_sd_start.c:139-172 | one byte on the buffers, the counter and the flags |
| Receiver.FrameReceiver.Callback | Fabric_Defect_Detection_END/applications/model_sd_start.c:134-175 | one callback of at most 64 bytes |
| Receiver.FrameReceiver.Callbacks | Fabric_Defect_Detection_END/applications/model_sd_start.c:134-175 | any number of callbacks of any sizes |
| Receiver.FrameReceiver.Take | Fabric_Defect_Detection_END/applications/model_sd_start.c:316-319 | the loop takes the image that waits and clears the flag |
| Receiver.SendFrame | OpenMV/all_endhaha.py:57-92 | the pixel loop and the framing |
| Receiver.MappedPixel | OpenMV/all_endhaha.py:72-77 | the pixel map is the nearest integer, keeps the order, spans 0 to 127 and never makes a head byte |
| Receiver.SentIsReceived | OpenMV/all_endhaha.py:57-92 | what the camera sends reaches an idle receiver unchanged by the clamp |
| Batch.EveryRoundIsReported | OpenMV/all_endhaha.py:209-244 | end to end: over any number of rounds of 1 to 10 images, in every schedule that brings the count before the first complete frame and consumes each frame before the next is complete, each round yields exactly one report with its classes in order and their histogram, and the next starts from zero |
| Batch.PlayRuns | Fabric_Defect_Detection_END/applications/model_sd_start.c:134-333 | from any point of a round, frames cut into any callbacks, noise without a head byte between them, idle turns of the loop and other commands anywhere: exactly the images that are left are classified, in order |
| Batch.RoundRuns | OpenMV/all_endhaha.py:209-244 | one round in any such schedule: one report and a clean controller if and only if the results file opens at the last image, and no report otherwise |
| Batch.CameraPlays | OpenMV/all_endhaha.py:209-244 | what the transmission loop sends, stop commands included and each frame cut into any callbacks, is one of these schedules |
| Batch.ServeCamera | OpenMV/all_endhaha.py:209-244 | the camera's round through callbacks of at most 64 bytes on the two classes: one more report with the classes of the images in order, and everything ready for the next round |
| Batch.Serve | Fabric_Defect_Detection_END/applications/model_sd_start.c:300-333 | the two classes, driven by any events, compute the same run |
| Batch.OneBatch | Fabric_Defect_Detection_END/applications/model_sd_start.c:300-333 | announcing n images and classifying them yields one report and a clean state if and only if the file opens at the last image |
| Batch.TenIsTheLimit | Fabric_Defect_Detection_END/applications/model_sd_start.c:94-118 | all images of a batch of n are stored and reported inside the list of results if and only if n is at most ten |
| Batch.UnopenedFileLeaks | Fabric_Defect_Detection_END/applications/model_sd_start.c:251-298 | after a batch whose file did not open, the next image triggers a report that lists the old classes, omits the new one and counts all |
| Batch.NeverOpened | Fabric_Defect_Detection_END/applications/model_sd_start.c:94-118 | while the file never opens nothing is reported, and images are counted modulo 2^16 in each class and modulo 2^8 in all |
| Batch.ArgMax | Fabric_Defect_Detection_END/applications/model_sd_start.c:94-106 | the loop returns the first largest output |
| Batch.Inspector.Inspect | Fabric_Defect_Detection_END/applications/model_sd_start.c:94-118 | classify, list, count, and report after the last image |
| Batch.Inspector.GenerateReport | Fabric_Defect_Detection_END/applications/model_sd_start.c:251-298 | the report and the reset, or nothing when the file does not open |
| Batch.Inspector.OnCount | Fabric_Defect_Detection_END/applications/main.c:462-478 | the two counting characters, for any count |
| Motor.RunKeeps | Fabric_Defect_Detection_END/applications/main.c:386-480 | after every command string, with speed corrections anywhere between: the enables are never both high, closed loop implies the selected motor is enabled and pulsing, and with run and closed loop clear both outputs are off |
| Motor.StopCommands | Fabric_Defect_Detection_END/applications/main.c:386-398 | `s` and `b`: nothing runs, nothing pulses, and nothing else changes |
| Motor.ForwardCommand | Fabric_Defect_Detection_END/applications/main.c:399-420 | `u`: closed loop forward, motor 1 alone enabled, both outputs at the period of the target, after waits of 80 ms at 50 rpm and every 5 rpm up to the target |
| Motor.BackwardCommand | Fabric_Defect_Detection_END/applications/main.c:421-429 | `o`: closed loop backward, motor 2 alone enabled and pulsing, at the period it had |
| Motor.JogCommand | Fabric_Defect_Detection_END/applications/main.c:430-439 | each of the eight jog keys: for two milliseconds a step its own motor alone is enabled and pulses, in its direction, with a period of 2 ms; then all is off |
| Motor.TestCommand | Fabric_Defect_Detection_END/applications/main.c:454-461 | `t`: open loop forward at 200 rpm after waits of 50 ms at 100, 120, ..., 200 rpm |
| Motor.OtherCommands | Fabric_Defect_Detection_END/applications/main.c:440-453 | `w`, `m` and `l` set 300, 200 and 100 mm/s; any other character changes nothing |
| Motor.SpeedLevels | Fabric_Defect_Detection_END/applications/main.c:399-412 | those speeds are 95, 63 and 31 rpm, with their pulse periods |
| Motor.RampSpeeds | Fabric_Defect_Detection_END/applications/main.c:263-288 | the speeds of a soft start are a step apart, none above the target, and none is left out below it |
| Motor.ClashExactly | Fabric_Defect_Detection_END/applications/main.c:186-288 | inside a command both enables are high for a moment if and only if the command goes forward or jogs motor 1 after motor 2 was enabled, or jogs motor 2 after motor 1 was |
| Motor.PidDrivesTheEnabled | Fabric_Defect_Detection_END/applications/main.c:158-173 | a speed correction acts in closed loop only, and there on nothing but the period of the one enabled motor |
| Motor.JogKeepsItsPeriod | Fabric_Defect_Detection_END/applications/main.c:215-304 | a jog leaves its own period behind, although the code means to restore it |
| Motor.Controller.Accelerate | Fabric_Defect_Detection_END/applications/main.c:263-288 | the branches and the loop of the soft start: a wait with the pins at each speed of the ramp, and the target at the end |
| Motor.Controller.OnKey | Fabric_Defect_Detection_END/applications/main.c:386-480 | the command switch against the state machine |
| Motor.Controller.MoveSteps | Fabric_Defect_Detection_END/applications/main.c:215-261 | a jog |
| Motor.Controller.OnAll | Fabric_Defect_Detection_END/applications/main.c:386-480 | any string of commands and corrections leaves the motors safe |
| Pwm.RegistersFit | Fabric_Defect_Detection_END/drivers/drv_pwm.c:256-265 | the reload value always fits 16 bits; the prescaler does if and only if the period is below 65535 * 65536 ticks |
| Pwm.DividerLeast | Fabric_Defect_Detection_END/drivers/drv_pwm.c:256-265 | the divider is the least one that brings the period below 65535 ticks |
| Pwm.EffectivePeriod | Fabric_Defect_Detection_END/drivers/drv_pwm.c:256-265 | the effective period T satisfies p - psc < T <= p if p is at least 3 ticks, and T <= p only then |
| Pwm.PulseInside | Fabric_Defect_Detection_END/drivers/drv_pwm.c:267-276 | 2 <= pulse <= period |
| Pwm.PulseClamped | Fabric_Defect_Detection_END/drivers/drv_pwm.c:267-276 | a pulse below 2 ticks becomes 2, one above the period becomes the period, any other stays |
| Pwm.PulseExact | Fabric_Defect_Detection_END/drivers/drv_pwm.c:267-276 | between the limits the pulse misses the wanted ticks by less than the divider |
| Pwm.ReadBackExact | Fabric_Defect_Detection_END/drivers/drv_pwm.c:214-216 | the readback is the true duration if and only if a thousand times the ticks fits 32 bits |
| Pwm.SetThenGet | Fabric_Defect_Detection_END/drivers/drv_pwm.c:187-282 | the period read back is at most the one asked for and less than psc * 1000 / clock + 1 ns short of it |
| Pwm.Timer.Set | Fabric_Defect_Detection_END/drivers/drv_pwm.c:224-282 | the register writes |
| Pwm.Timer.Get | Fabric_Defect_Detection_END/drivers/drv_pwm.c:187-220 | the whole nanoseconds of the period and of the pulse, rounded down, if and only if a thousand times their ticks fits 32 bits; a pulse inside the period then never reads longer than it |
| Pwm.SetAndGet | Fabric_Defect_Detection_END/drivers/drv_pwm.c:187-282 | set followed by get on one timer, pulse never longer than period |

## Left out

- MergePatch.MergePatchRoundTrip: asks for case-neutral keys in both modes, which `MergePatch.CaseNeutralExact` shows is needed for all trees together; single pairs that happen to merge back with other keys are not characterised.
- Parser.ParseText: models the entry points that take a terminated string; buffers given by length without a terminator are not modelled, and neither are the error position and `global_error`.
- Printer.PrintBuffer.PrintNumber: only numbers in the int range; `%1.15g`, NaN and infinity are not modelled.
- Printer.Print: numbers outside the int range are outside its precondition, as they are for the other printing methods; allocation is taken to succeed.
- Receiver.SendFrame: the image file is read and has 1024 pixels; the early returns without a frame are not modelled.
- Batch.Inspector.Inspect: an image or a report behind the tenth place of the list of results, which the source would write or read outside the list, is outside its precondition; `Batch.TenIsTheLimit` says when that happens.
- Batch.EveryRoundIsReported: the rounds follow one another, and the results file opens at the end of each.
- Pool.Mempool.constructor: the area holds at least one block; for a smaller one the last store of the source falls outside it, as `Pool.LastStoreInside` says.
- PatchDocument.Document.Apply: once an append goes through a pointer to an item that has left its list, nothing is said of the document; that takes a `test` and a later removal of the child the pointer was left at.
- PatchDocument.Document.ApplyAll: the same; and patches are values, so that the sorting of a patch's own value by `test` is not carried over to a second run of the same patches.
- Trees in documents, the recorder, the parser and the printer are values: relinking, sharing and freeing of items is modelled only in `SiblingList.dfy` and `ListSort.dfy`, and the member order that sorting inside `create_patches` and `generate_merge_patch` leaves behind is not carried into their callers' trees.
- `generate_merge_patch` with a missing tree, which only stands for null.
- Move and copy patches whose `from` is not a string are given status 5; the rest of that path is as in the source.
- `strtod` is exact arithmetic on reals; rounding, locale and overflow to infinity are not modelled.
- Allocation failure inside the JSON library, Raw and reference items, `cJSON_Minify`, `cJSON_Duplicate`, `cJSON_Compare` and the allocation hooks.
- Heap.SmallHeap.WriteWord: a header word is kept whole at its first byte offset; how it is spread over four bytes is not modelled.
- Pool.Mempool.EnterRegion: the header word of a block is a link, null or an owner mark instead of an address.
- The `prev` field of the heap's end marker, heap names, locks and hooks; the heap is used by one request at a time.
- Detaching and deleting a pool, its hooks, and the scheduler and timers: resuming a thread takes it off the suspend list.
- The neural network: its seven outputs are any function of the image.
- The PID arithmetic: a speed correction is any speed, and commands and corrections run one after the other.
- Timer clock selection, HAL calls, delays other than those of a jog and a soft start, the buzzer, WiFi, MQTT, SD card writes and console output.
- Image capture, blob detection and servo motion on the camera.

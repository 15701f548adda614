# Verified models of bl_iot_sdk components

Dafny models of five components of the SDK, each proved against a simple meaning:

* **JSON** (`stage/cjson`). Trees with objects as maps (`JsonValue`). Sibling lists on the heap: the in-place
  merge sort, list surgery and deep copies (`JsonList`, `JsonSiblings`, `JsonSurgery`, `JsonCopy`). The two
  equality tests, and what one of them does to its arguments (`JsonCompare`, `JsonDoc`). JSON Pointer
  (`JsonPointer`). JSON Patch: on values (`JsonPatch`, `JsonPlace`, `JsonOps`, `JsonOutcome`), on documents with
  the back links of their lists (`JsonDocument`, `JsonDocLaw`, `JsonTest`, `JsonDocOutcome`), and the generator
  (`JsonDiff`, `JsonDiffLaw`, `JsonDiffNone`, `JsonPatchRun`, `JsonPatchLimits`). JSON Merge Patch (`JsonMerge`, `JsonMergeWalk`, `JsonMergeDiff`,
  `JsonMergeLimits`). String literals (`JsonUnicode`, `JsonString`), printer, grammar and parser (`JsonPrint`, `JsonOutput`,
  `JsonLayout`, `JsonGrammar`, `JsonParse`).
* **mDNS** (`network/lwip_mdns`). Names and their compression (`MdnsName`, `MdnsDomain`, `MdnsCompress`,
  `MdnsHeld`, `MdnsLimits`), questions and answers in packets (`MdnsLayout`, `MdnsOut`, `MdnsIn`), probing (`MdnsProbe`).
* **HTTP server-side includes** (`network/httpd`). Tags as a one-pass machine and without it (`SsiScan`, `SsiTags`), and
  the piecemeal sending that has to amount to it (`SsiSend`).
* **Integer formatting and scanning** (`libc/newlibc`): `PrintInt`, `PrintfSpec`, `PrintfSteps`,
  `PrintfLaw`, `Printf`, `ScanInt`.
* **DHCP addresses** (`network/lwip_dhcpd`): `Dhcp`.

Code that works in place is modelled as classes and loops; each such method is tied to a function or a
property, and what the source promises is proved about that for all inputs or all runs. Where the
promise does not hold of the code, the code is modelled as it is and the exact condition is proved
(`AppendSorted`, `TestThenAdd`, `DecodeKey`, `SingleKeyLaw`, `RemoveMeant`, `WalkPairs`, `FlatRoundTrip`,
`GenerateMergePatch`, `MatchMeaning`, `WriteDomain`, `PacketReads`, `FindMatch`, `Vsnprintf`, `TriesInRange`,
`SearchEnds`, `Parse`, and the outcome lemmas of `JsonOutcome`).

Conventions. C strings are sequences without their terminating zero, bytes of text are characters. A
packet buffer is a flat array of bytes. What TCP, the file system, `strtod` and the DHCP server's
allocator answer is arbitrary within their contracts. Integers are unbounded except where the width is
written out (`size_t` in array indices, IPv4 addresses, 64-bit values, type and TTL fields, lengths in
packets).

A document (`Doc`) is a tree in which every object says where the back link of its first member leads: to a
member, nowhere, or out of the list. Nodes on the heap show such a document (`Shows`), and list surgery does
the same to both (`ImageEdited`, `ImageSorted`).

In these places the code does other than its callers count on, and the model follows the code:
`decode_pointer_inplace` turns an escaped '/' into '~' (`SlashKey`); a "test" sorts the document, and an
addition after it can lose members or the new one (`DroppedExample`); the merge patch generator walks with
`strcmp` over what it has sorted without regard to case (`LostExample`); the compressor's check against
matches beyond a jump does not keep it from matches inside a label (`MisalignedExample`); digits behind a
negative `*` precision make `vsnprintf` run over its string (`RunawayExample`); and a block of a file can
replace the one that a pending insert belongs to (`SendStale`).

`dafny verify dfyconfig.toml` checks the project.

## Model

| member | source | states |
|---|---|---|
| KeyOrder.StrLessTotal | stage/cjson/cJSON_Utils.c:83-109 | `strcmp` orders keys: of two keys exactly one is smaller, or they are equal |
| KeyOrder.StrLessMeaning | stage/cjson/cJSON_Utils.c:83-109 | a key is smaller if and only if at the first place where they differ it ends or has the smaller character |
| KeyOrder.KeyLessTransitive | stage/cjson/cJSON_Utils.c:83-109 | the order of keys, with or without regard to case, is transitive |
| MergeSort.SortSorts | stage/cjson/cJSON_Utils.c:484-593 | the merge sort on sequences, with its early way out and its rule for ties, gives an ascending permutation of every input |
| JsonList.IsAscending | stage/cjson/cJSON_Utils.c:492-507 | the early way out is taken exactly if the keys ascend strictly |
| JsonList.Split | stage/cjson/cJSON_Utils.c:509-527 | the list is cut behind its first half (the longer one), both halves are linked lists |
| JsonList.MergeLists | stage/cjson/cJSON_Utils.c:534-592 | merging two linked lists in place gives the merge of their sequences; forward and back links are right, and the head keeps its back link |
| JsonList.SortList | stage/cjson/cJSON_Utils.c:484-593 | sorting in place is the merge sort on the sequence of nodes; same nodes, terminated, back links right on all but the head, and exactly what the head's back link becomes |
| JsonSurgery.GetItem | stage/cjson/cJSON.c:1869-1886 | the item at an index, none past the end; forward links are enough |
| JsonSurgery.AddItem | stage/cjson/cJSON.c:1974-2005 | appending, wherever in the list the back link of the first child leads: exactly when the list afterwards is the one appended to, in which members may have been lost or the new one dropped in spite of success; null arguments and a parent added to itself are refused |
| JsonSurgery.Detach | stage/cjson/cJSON.c:2205-2239 | the item leaves the sequence and leads nowhere, wherever the first child's back link leads; null arguments give null and change nothing |
| JsonSurgery.InsertItem | stage/cjson/cJSON.c:2281-2313 | insertion at an index, for any item; at the end if the index is past it, and then exactly if the item leads nowhere; refusal of a negative index |
| JsonSurgery.InsertItemStrict | stage/cjson/cJSON_Utils.c:693-728 | insertion exactly at the index, for any item; refusal of an index past the end |
| JsonSurgery.Replace | stage/cjson/cJSON.c:2315-2362 | the replacement takes the item's place, also if it is the first or the only child; exactly when it is refused, and then nothing changes |
| JsonSurgery.SortObject | stage/cjson/cJSON_Utils.c:595-602 | the children become the sorted ones, and the first child's back link leads where `SortSiblings` says, wherever it led before |
| JsonSurgery.SortThenAdd | stage/cjson/cJSON_Utils.c:595-602 | appending to an object that has just been sorted: the list is that of `AppendSorted` |
| JsonSiblings.SortedRight | stage/cjson/cJSON_Utils.c:595-602 | after sorting, the first child's back link leads to the last child if and only if sorting changed neither the first nor the last child |
| JsonSiblings.AppendSorted | stage/cjson/cJSON.c:1974-2005 | a member appended after sorting arrives behind the sorted ones if and only if sorting changed neither the first nor the last; otherwise it is dropped, or the members behind the old last one are |
| JsonSiblings.EndsByKeys | stage/cjson/cJSON_Utils.c:484-602 | with different keys: sorting keeps the first member if and only if its key is the least, and the last if and only if its key is the greatest |
| JsonSiblings.ImageEdited | stage/cjson/cJSON.c:1974-2239 | appending and removing do the same to a list of nodes and to the list of what is in the nodes |
| JsonSiblings.ImageSorted | stage/cjson/cJSON_Utils.c:595-602 | so does sorting, back link included |
| JsonCopy.Duplicate | stage/cjson/cJSON.c:2729-2801 | the deep copy has the shape, keys, types and values of the original, shares nothing with it, and has all back links, also if the original has lost some by sorting |
| JsonCopy.AlikeValue | stage/cjson/cJSON.c:2729-2801 | a copy has the same value as the original |
| JsonCopy.SoundShows | stage/cjson/cJSON.c:2729-2801 | a tree of nodes with right back links, as the parser, the constructors and the deep copy make it, is the document with right back links of its value |
| JsonValue.MeaningOrder | stage/cjson/cJSON_Utils.c:604-690 | the meaning of an object does not depend on the order of its members |
| JsonCompare.SortedMembers | stage/cjson/cJSON_Utils.c:595-602 | sorted members are a permutation; with different keys they ascend strictly |
| JsonCompare.SameMeaning | stage/cjson/cJSON_Utils.c:604-690 | with different keys, `compare_json` holds if and only if both trees mean the same, the text of raw nodes aside |
| JsonDoc.CompareJson | stage/cjson/cJSON_Utils.c:604-690 | `compare_json` with all it does to its arguments: both trees afterwards, sorted as far as the comparison got, back links included, and the verdict |
| JsonDoc.CompareItems | stage/cjson/cJSON_Utils.c:635-653 | arrays: compared up to the first difference, also for different lengths |
| JsonDoc.CompareMembers | stage/cjson/cJSON_Utils.c:655-682 | objects: both are sorted and then compared in lock-step, up to the first difference |
| JsonDoc.ComparedSame | stage/cjson/cJSON_Utils.c:604-690 | the verdict is `Same`, for all trees, wherever back links lead |
| JsonDoc.ComparedMeaning | stage/cjson/cJSON_Utils.c:604-690 | comparing leaves the meaning of a tree as it was |
| JsonDoc.ComparedInOrder | stage/cjson/cJSON_Utils.c:604-690 | comparing leaves a tree whose objects are in order as it was, back links included |
| JsonCompare.GetObjectItem | stage/cjson/cJSON.c:1898-1928 | the first member with a key |
| JsonCompare.Compare | stage/cjson/cJSON.c:3009-3132 | the loops of `cJSON_Compare` decide `Equal`, for all trees, and one node equals itself unless it is invalid |
| JsonCompare.EqualMeaning | stage/cjson/cJSON.c:3009-3132 | with different keys, `cJSON_Compare` holds if and only if both trees mean the same and have no invalid node |
| JsonCompare.EqualitiesAgree | stage/cjson/cJSON_Utils.c:604-690 | the sort-and-zip test and the lookup test agree on trees without raw and invalid nodes; elsewhere the lookup test is the stricter one |
| JsonPointer.EncodedLength | stage/cjson/cJSON_Utils.c:157-170 | the length of the escaped key |
| JsonPointer.EncodeStringAsPointer | stage/cjson/cJSON_Utils.c:173-196 | the escaped key and a zero are written, nothing else in the buffer |
| JsonPointer.EncodeNames | stage/cjson/cJSON_Utils.c:173-196 | an escaped key is one token and stands for that key only |
| JsonPointer.EncodeTable | stage/cjson/cJSON_Utils.c:173-196 | "~" is escaped as "~0" and "/" as "~1", every other character stays |
| JsonPointer.UnescapeMeaning | stage/cjson/cJSON_Utils.c:120-154 | a token is unescaped to a key if and only if it is the escaped form of the key; other tokens stand for none |
| JsonPointer.ComparePointers | stage/cjson/cJSON_Utils.c:120-154 | a key is matched if and only if the first token, unescaped as section 4 of RFC 6901 says, is the key |
| JsonPointer.DecodeIndex | stage/cjson/cJSON_Utils.c:274-299 | which tokens are taken for an index, and for which one, modulo 2^32 |
| JsonPointer.DecimalIndex | stage/cjson/cJSON_Utils.c:274-299 | a printed index is read back |
| JsonPointer.IndexDigits | stage/cjson/cJSON_Utils.c:274-299 | of tokens made of digits exactly those without a superfluous zero are indices, and they stand for their value modulo 2^32 |
| JsonPointer.LooseIndex | stage/cjson/cJSON_Utils.c:285-294 | two tokens that RFC 6901 does not allow and the loop accepts: the empty one, and one with a character above '9' |
| JsonPointer.GetItemFromPointer | stage/cjson/cJSON_Utils.c:301-346 | the walk down the tree is the recursive lookup, for all pointers, also malformed ones |
| JsonPointer.FindPointer | stage/cjson/cJSON_Utils.c:198-259 | the search through the whole tree gives the path to the node, and nothing if the node is not in the tree |
| JsonPointer.FindThenGet | stage/cjson/cJSON_Utils.c:198-346 | for every tree with different keys and every node: following the found pointer leads to that node |
| JsonPatch.DecodePointerInplace | stage/cjson/cJSON_Utils.c:359-390 | the in-place decoding on the buffer is `DecodeInPlace`; no write is outside of the string |
| JsonPatch.DecodeKey | stage/cjson/cJSON_Utils.c:359-390 | a key comes out of escaping and in-place decoding unchanged if and only if it has no '/' and every character other than '~' is in place already |
| JsonPatch.DecodeMeaning | stage/cjson/cJSON_Utils.c:359-390 | what becomes of every key that is escaped and decoded, character by character: '~' stays, '/' is written one place too far, and other characters are not moved |
| JsonPatch.DecodeInvalid | stage/cjson/cJSON_Utils.c:379-383 | from an escape on that is none, the rest of the token is left as it is |
| JsonPatch.PlainSurvives | stage/cjson/cJSON_Utils.c:359-390 | keys without '/' and '~' survive, keys with '/' never do |
| JsonDocument.Document.DetachPath | stage/cjson/cJSON_Utils.c:430-481 | the document without the node at the path, and the node, or the document unchanged if there is none |
| JsonDocument.Document.AddValue | stage/cjson/cJSON_Utils.c:959-1023 | the part common to add, replace, move and copy is `Add`, also where a back link leads to the middle of a list or nowhere; its status is described by `AddOutcome` and `OpStatus` |
| JsonDocument.Document.TestValue | stage/cjson/cJSON_Utils.c:831-836 | the status of "test", and the document with the compared objects sorted |
| JsonDocument.Document.ApplyPatch | stage/cjson/cJSON_Utils.c:807-1036 | all six operations and all status codes are those of `Apply`, for every patch and document, with what "test" does to the order of members and to back links; what they mean is in the outcome lemmas below and `OpStatus` |
| JsonDocument.Document.ApplyPatches | stage/cjson/cJSON_Utils.c:1038-1094 | patches are applied up to the first that fails (`RunStops`); what is no array is refused |
| JsonDocLaw.RunAgrees | stage/cjson/cJSON_Utils.c:807-1094 | as long as "test" only compares objects that are in order, whole runs on the document are runs on its value, and all back links stay right |
| JsonTest.TestMeaning | stage/cjson/cJSON_Utils.c:831-836 | "test" succeeds if and only if there is a node at the path that is `Same` as the value, and never changes what the document means |
| JsonTest.TestThenAdd | stage/cjson/cJSON_Utils.c:807-1094 | for every document, object, value and key: an addition after a test of the object that succeeds returns 0 as well, and the member arrives if and only if the first member had the least key and the last the greatest; what is lost otherwise |
| JsonTest.DroppedExample | stage/cjson/cJSON_Utils.c:831-836 | a "test" of {"b":1,"a":2} and an addition of "c": both succeed and there is no "c" |
| JsonPlace.Locate | stage/cjson/cJSON_Utils.c:301-346 | a pointer made of steps leads to what is in that place of the document's meaning; replacing the node replaces exactly that |
| JsonOps.DetachMeaning | stage/cjson/cJSON_Utils.c:393-481 | `detach_path` takes exactly the place out of the meaning of the document |
| JsonOps.AddMeaning | stage/cjson/cJSON_Utils.c:959-1023 | the last part of `apply_patch` puts the value into the place: as a member, or between elements |
| JsonOps.ApplyRemove | stage/cjson/cJSON_Utils.c:887-903 | "remove" succeeds and removes the place, nothing else |
| JsonOps.ApplyAdd | stage/cjson/cJSON_Utils.c:941-1017 | "add" succeeds and sets the member, nothing else |
| JsonOps.ApplyAppendItem | stage/cjson/cJSON_Utils.c:981-987 | "add" at "-" succeeds and appends the element, nothing else |
| JsonOps.ApplyReplace | stage/cjson/cJSON_Utils.c:838-1023 | "replace" succeeds and puts the value in place of the old one, at the root and below |
| JsonOps.ApplyMove | stage/cjson/cJSON_Utils.c:905-1023 | "move" is removal of one place, and then what was there put into another place of the document without it |
| JsonOps.ApplyCopy | stage/cjson/cJSON_Utils.c:905-1023 | "copy" puts what is in one place into another, nothing else |
| JsonOps.ApplyTest | stage/cjson/cJSON_Utils.c:831-836 | "test" of a place succeeds if and only if the value means what is in the place |
| JsonOutcome.PointerTo | stage/cjson/cJSON_Utils.c:301-346 | for every path, also malformed: it leads to a node if and only if, token by token, it leads to a place in the meaning of the document, and to replace the node is to replace the place |
| JsonOutcome.DetachOutcome | stage/cjson/cJSON_Utils.c:393-481 | for every path: `detach_path` takes a node out if and only if its container has an element at that index, or a member whose key is the same but for case; what is left |
| JsonOutcome.AddOutcome | stage/cjson/cJSON_Utils.c:959-1023 | for every path: a value is put into a container if and only if that is an object, or an array and the last token is "-" or an index up to the length; status 9 if there is no container, 11 if the token is no index, 10 if the index is past the end, and nothing changes then; what the document means otherwise |
| JsonOutcome.RemoveOutcome | stage/cjson/cJSON_Utils.c:887-903 | "remove" fails with 13 and changes nothing if and only if there is nothing in the place |
| JsonOutcome.ReplaceOutcome | stage/cjson/cJSON_Utils.c:838-903 | "replace" fails with 13 and changes nothing if and only if there is nothing in the place; without a value it fails with 7 and the old one is gone |
| JsonOutcome.AddOpOutcome | stage/cjson/cJSON_Utils.c:941-1023 | "add" fails with 7 without a value, and with 9, 10 or 11 exactly as `AddOutcome` says; nothing changes then |
| JsonOutcome.MoveOutcome | stage/cjson/cJSON_Utils.c:905-1023 | "move" fails with 5 and changes nothing if and only if there is nothing in the place named; if there is no room where it should go, what was taken out is gone |
| JsonOutcome.CopyOutcome | stage/cjson/cJSON_Utils.c:905-1023 | "copy" fails with 5 if and only if the source leads nowhere, and with 9, 10 or 11 if there is no room; nothing changes then |
| JsonOutcome.TestOutcome | stage/cjson/cJSON_Utils.c:831-836 | "test" succeeds if and only if the path leads to a place and the value means what is in it, for every path |
| JsonOutcome.MalformedOutcome | stage/cjson/cJSON_Utils.c:817-829 | a patch without a path fails with 2, without one of the six operations with 3, without a source with 4; nothing changes |
| JsonOutcome.AddAtIndex | stage/cjson/cJSON_Utils.c:988-1001 | "add" at an index of an array succeeds if and only if the index is at most the length; otherwise 10 and nothing changes |
| JsonDocOutcome.OpStatus | stage/cjson/cJSON_Utils.c:807-1036 | wherever back links lead, as long as none leads out of its list: the status of an operation on a document is that on its value, and so is the document after a refusal |
| JsonDocOutcome.AddPastEnd | stage/cjson/cJSON_Utils.c:988-1001 | on documents: an addition past the end of an array returns 10 and leaves the value of the document as it was |
| JsonDocOutcome.RunStops | stage/cjson/cJSON_Utils.c:1038-1094 | a run of patches stops at the first that is refused, with its status and the document as that patch leaves it |
| JsonDiff.Patches.Create | stage/cjson/cJSON_Utils.c:1141-1279 | the recursive generation with its loops appends exactly the patches `Diff` |
| JsonOps.PatchFields | stage/cjson/cJSON_Utils.c:1096-1134 | a composed patch is read back by `apply_patch`: its operation, path and value, in both case modes |
| JsonDiff.Patches.CreateItems | stage/cjson/cJSON_Utils.c:1170-1213 | arrays: exactly the patches for common elements, removals at a fixed index and additions at the end |
| JsonDiff.Patches.CreateMembers | stage/cjson/cJSON_Utils.c:1215-1274 | objects: exactly the patches of the lock-step walk over both, sorted |
| JsonDiffLaw.RemovalsApply | stage/cjson/cJSON_Utils.c:1192-1205 | repeated removals at one index cut the array off there |
| JsonDiffLaw.ItemsApply | stage/cjson/cJSON_Utils.c:1170-1213 | the patches for two arrays lead from one to the other, in any place of any document |
| JsonDiffLaw.MembersApply | stage/cjson/cJSON_Utils.c:1215-1274 | the patches for two objects lead from one to the other, in any place of any document |
| JsonDiffLaw.PatchLaw | stage/cjson/cJSON_Utils.c:1141-1279 | JSON Patch is a correct diff: applied to any tree that means `from`, the patches return 0 and leave a tree that means `to`, the text of raw nodes aside; keys at the end of a path have to survive decoding, and no two keys may differ only in case |
| JsonDiffNone.NothingToPatch | stage/cjson/cJSON_Utils.c:1141-1279 | no patches are generated if and only if `compare_json` finds no difference, for all trees |
| JsonPatchRun.PatchRun | stage/cjson/cJSON_Utils.c:807-1279 | the same on documents with their back links: generated patches, applied to a document with right back links that means `from`, return 0 and leave a document with right back links that means `to` |
| JsonPatchLimits.SingleKeyLaw | stage/cjson/cJSON_Utils.c:1141-1279 | adding one member to an empty object works if and only if its key survives |
| JsonPatchLimits.SlashKey | stage/cjson/cJSON_Utils.c:375-378 | the key "/" comes out as "~" |
| JsonPatchLimits.RemoveMeant | stage/cjson/cJSON_Utils.c:464-467 | "remove" takes out the member meant if and only if no earlier key differs from it only in case |
| JsonMerge.MergePatch | stage/cjson/cJSON_Utils.c:1321-1379 | `merge_patch` is the merge of section 2 of RFC 7396, for all trees with different keys |
| JsonMergeDiff.GenerateMergePatch | stage/cjson/cJSON_Utils.c:1391-1471 | the patch is `MergeDiff`, for all trees; where the walk pairs the common keys at every level, no patch means no difference, and merging the patch into `from` gives `to` if and only if null members of `to` are null in `from` already |
| JsonMergeDiff.MergedFresh | stage/cjson/cJSON_Utils.c:1401-1404 | where one side is no object: a tree merged onto the other gives that tree if and only if it has no null members outside of arrays |
| JsonMergeDiff.LowerOrderly | stage/cjson/cJSON_Utils.c:1406-1433 | trees with lower-case keys meet that condition, in both variants |
| JsonMergeDiff.MergeRoundTrip | stage/cjson/cJSON_Utils.c:1321-1471 | merge patch is a correct diff: generated and merged onto a copy of `from` it gives `to`, if and only if the nulls of `to` are kept; where the walk pairs the common keys at every level |
| JsonMergeWalk.WalkPairs | stage/cjson/cJSON_Utils.c:1416-1462 | the lock-step walk with `strcmp` over two lists in one order pairs all common keys if and only if every key in front of a common one, on either side, is smaller for `strcmp` |
| JsonMergeLimits.FlatMerge | stage/cjson/cJSON_Utils.c:1321-1379 | merging, key by key: the last word of the patch about a key counts |
| JsonMergeLimits.FlatRoundTrip | stage/cjson/cJSON_Utils.c:1321-1471 | for every two objects without objects in them, no null in `to` and no two keys that differ only in case: generated and merged, the patch gives `to` if and only if the walk comes to no common key in `to` while that key is still ahead in `from` |
| JsonMergeLimits.LateLost | stage/cjson/cJSON_Utils.c:1421-1427 | a common key that the walk adds first and removes later is lost |
| JsonMergeLimits.LostExample | stage/cjson/cJSON_Utils.c:1406-1433 | from {"a":1,"B":1} to {"B":1}, without regard to case: "B" is lost |
| JsonUnicode.Utf8RoundTrip | stage/cjson/cJSON.c:723-770 | the bytes of every code point are its shortest form and decode to it (section 3 of RFC 3629) |
| JsonString.ParseHex4 | stage/cjson/cJSON.c:623-656 | four hexadecimal digits in either case give the number that they spell, 0 if one is no digit |
| JsonString.LiteralCode | stage/cjson/cJSON.c:660-721 | a \u literal is the code point whose UTF-16 form it is, one code unit or a surrogate pair, with digits in either case; failure for lone surrogates and short input; four characters that are no digits count as zero |
| JsonString.LiteralMeaning | stage/cjson/cJSON.c:660-721 | for every text, code point and length: the literal is read so if and only if it is the UTF-16 form of the code point, or has no four digits and is taken for zero |
| JsonString.FormReads | stage/cjson/cJSON.c:660-778 | the \u form of every code point is decoded to its UTF-8 bytes |
| JsonString.LoneSurrogate | stage/cjson/cJSON.c:683-707 | lone surrogates are refused |
| JsonString.FaceExample | stage/cjson/cJSON.c:713-716 | the pair d83d, DE00 becomes the bytes F0 9F 98 80 |
| JsonString.EscapeReads | stage/cjson/cJSON.c:844-865 | each of the eight short escapes is decoded to its character |
| JsonString.BodyMeaning | stage/cjson/cJSON.c:829-881 | the text between the quotes is decoded to s if and only if it stands for s, piece by piece |
| JsonString.QuoteMeaning | stage/cjson/cJSON.c:794-816 | the literal ends at the first quote with an even number of backslashes in front of it |
| JsonString.StringMeaning | stage/cjson/cJSON.c:781-908 | what `parse_string` reads, on every text, is what the literal stands for |
| JsonString.Utf16ToUtf8 | stage/cjson/cJSON.c:660-778 | the UTF-8 form of the code point that the literal stands for is written, nothing else in the buffer; failure exactly if it stands for none |
| JsonString.FindEnd | stage/cjson/cJSON.c:794-816 | the first pass finds the closing quote and counts the escapes before it |
| JsonString.RoundFits | stage/cjson/cJSON.c:818-882 | every round of the second pass stays within the estimate of the first, also when the passes are out of step |
| JsonString.ParseString | stage/cjson/cJSON.c:781-908 | on every input all reads and writes are in bounds, and the result is s and an offset if and only if a literal for s ends there: the first quote with an even number of backslashes in front of it, and between the quotes characters, short escapes and UTF-16 forms |
| JsonPrint.BodyEscape | stage/cjson/cJSON.c:829-1030 | decoding the escaped form of a string without zeros gives the string |
| JsonPrint.QuotedReads | stage/cjson/cJSON.c:781-1030 | a printed string is read back as it was, and the parser stops behind it |
| JsonParse.ParseBuffer.SkipWhitespace | stage/cjson/cJSON.c:1047-1070 | white space is skipped, but not the last character of the buffer |
| JsonParse.ParseBuffer.ParseNumber | stage/cjson/cJSON.c:307-381 | the number is what `strtod` makes of at most 63 characters that may be part of one; nothing if it uses none |
| JsonParse.ParseBuffer.ParseValue | stage/cjson/cJSON.c:1325-1377 | on every input, all accesses are in bounds and the result is that of the descent `ValueAt`, which `ValueMeaning` characterises |
| JsonParse.ParseBuffer.ParseArray | stage/cjson/cJSON.c:1454-1549 | on every input the elements and the offset behind the bracket, or failure, also where the nesting is too deep |
| JsonParse.ParseBuffer.ParseObject | stage/cjson/cJSON.c:1614-1729 | on every input the members and the offset behind the brace, or failure, also where the nesting is too deep |
| JsonParse.Parse | stage/cjson/cJSON.c:1088-1181 | for every text and every tree: parsing gives the tree if and only if the text begins, behind a byte order mark and white space, with a text of the tree, the tree is nested at most 1000 deep and, if asked for, only white space follows up to the zero at the end |
| JsonParse.ValueMeaning | stage/cjson/cJSON.c:1325-1729 | the descent finds a tree and an end if and only if the text in between is a text of the tree in the grammar `Spells`, and the tree is nested no deeper than the levels that are left |
| JsonParse.SpellsUnique | stage/cjson/cJSON.c:1325-1729 | the grammar is unambiguous: a text begins with a text of at most one tree, and with one such text only |
| JsonGrammar.PrintedSpells | stage/cjson/cJSON.c:1380-1843 | the printed text of a tree, formatted or not, is a text of the tree |
| JsonOutput.PrintBuffer.Ensure | stage/cjson/cJSON.c:447-530 | room for so many bytes: exactly when it is granted, in a preallocated buffer or in one that may be replaced by a larger one, up to `INT_MAX` |
| JsonOutput.PrintBuffer.UpdateOffset | stage/cjson/cJSON.c:533-543 | the offset moves behind the text up to its zero |
| JsonOutput.PrintBuffer.PrintString | stage/cjson/cJSON.c:911-1030 | the quoted and escaped string is written, and exactly when there is room for it |
| JsonOutput.PrintBuffer.PrintValue | stage/cjson/cJSON.c:1380-1451 | the text of the tree is written behind what was there; fails exactly on an invalid node or when there is no room for the text and two bytes |
| JsonOutput.PrintBuffer.PrintArray | stage/cjson/cJSON.c:1552-1611 | the same for arrays |
| JsonOutput.PrintBuffer.PrintObject | stage/cjson/cJSON.c:1732-1843 | the same for objects, formatted and not |
| JsonOutput.PrintTree | stage/cjson/cJSON.c:1196-1272 | `cJSON_Print` and `cJSON_PrintUnformatted` return the text of the tree, or nothing exactly if there is an invalid node or the text does not fit into `INT_MAX` bytes |
| JsonLayout.ObjectLines | stage/cjson/cJSON.c:1732-1843 | formatted, an object is a brace, a line for each member with its key, a tab and its value, indented one deeper, and a brace at its own depth; unformatted there is nothing between the parts |
| JsonLayout.ArrayLine | stage/cjson/cJSON.c:1552-1611 | an array, formatted or not, is its elements with a comma between them, on one line |
| JsonLayout.NumberText | stage/cjson/cJSON.c:553-600 | a number is printed with a minus if it is negative, and the digits of its value without a superfluous zero |
| JsonLayout.PlainString | stage/cjson/cJSON.c:911-1030 | characters that need no escape are printed as they are |
| JsonOutput.PrintThenParse | stage/cjson/cJSON.c:1088-1843 | print then parse is the identity on trees of nulls, booleans, `int`s, strings, arrays and objects nested at most 1000 deep, and fails on deeper ones |
| MdnsDomain.Domain.AddLabelBase | network/lwip_mdns/mdns_server.c:294-310 | the length byte is added exactly if label and name stay within their limits |
| MdnsDomain.Domain.AddLabel | network/lwip_mdns/mdns_server.c:319-331 | length byte and label are added, or nothing |
| MdnsDomain.Domain.AddLabelPbuf | network/lwip_mdns/mdns_server.c:336-352 | the same from a packet, undone if the packet is too short |
| MdnsDomain.ReadNameLoop | network/lwip_mdns/mdns_server.c:358-414 | the loop is `ReadLoop`; it terminates on every packet, also on pointer cycles |
| MdnsDomain.ReadNameInto | network/lwip_mdns/mdns_server.c:424-429 | `mdns_readname` is `ReadName` |
| MdnsName.ReadNameMeaning | network/lwip_mdns/mdns_server.c:358-429 | a name is read if and only if the packet spells it with at most five jumps and 256 bytes; which name and which end |
| MdnsName.ReadNameWellFormed | network/lwip_mdns/mdns_server.c:358-414 | what is read is a zero-terminated sequence of labels |
| MdnsName.DenotesUnique | network/lwip_mdns/mdns_server.c:358-414 | a place in a packet spells at most one name |
| MdnsName.PointerBytes | network/lwip_mdns/mdns_server.c:372-380 | a pointer leads to a target if and only if its bytes are 0xC0 plus the upper and the lower byte of the target |
| MdnsName.DenotesFrame | network/lwip_mdns/mdns_server.c:358-414 | bytes elsewhere do not matter to a name |
| MdnsOut.FindMatch | network/lwip_mdns/mdns_server.c:806-830 | the longest suffix is found: the first label boundary from which the names agree; the scan leaves the name if and only if that has 256 octets and nothing stops it before its end |
| MdnsOut.CompressDomain | network/lwip_mdns/mdns_server.c:791-831 | against what is at any offset of any packet: how much of the name is to be written, and where the pointer has to lead; exactly when the scan runs off the name |
| MdnsCompress.MatchMeaning | network/lwip_mdns/mdns_server.c:806-823 | a pointer to matching bytes means the suffix if and only if the match begins at a label of the recorded name |
| MdnsCompress.DisjointAligned | network/lwip_mdns/mdns_server.c:806-823 | if length bytes and characters are disjoint, every match begins at a label |
| MdnsCompress.TightJumps | network/lwip_mdns/mdns_server.c:791-831 | a compressed name has at most as many jumps as labels |
| MdnsLimits.MisalignedExample | network/lwip_mdns/mdns_server.c:818-822 | a match inside a label that makes the compressed name unreadable |
| MdnsLimits.ChainExample | network/lwip_mdns/mdns_server.c:364-366 | six names, each compressed against the one before: the sixth cannot be read |
| MdnsHeld.ReadHeld | network/lwip_mdns/mdns_server.c:358-429 | a recorded name reads back if and only if it has at most five jumps, and ends behind where it was written |
| MdnsHeld.NameWritten | network/lwip_mdns/mdns_server.c:840-889 | writing a name whose match begins at a label keeps all recorded names and records the new one, with one jump more than the name it is compressed against, or none |
| MdnsHeld.DeepChoice | network/lwip_mdns/mdns_server.c:849-860 | which recorded name is taken is settled before anything is written: whether its match begins at a label, and whether it has five jumps already |
| MdnsHeld.CrookedHopeless | network/lwip_mdns/mdns_server.c:840-889 | a name whose match does not begin at a label does not read back, whatever is written behind it |
| MdnsHeld.TameStraight | network/lwip_mdns/mdns_server.c:840-889 | if no length byte of any name occurs as a character, every match begins at a label |
| MdnsOut.OutPacket.ChooseCut | network/lwip_mdns/mdns_server.c:849-860 | of all recorded names one that saves most is chosen |
| MdnsOut.OutPacket.StoreOffset | network/lwip_mdns/mdns_server.c:869-875 | the offset goes into the first free slot, if any |
| MdnsOut.OutPacket.WriteDomain | network/lwip_mdns/mdns_server.c:840-889 | the written name reads back if and only if the recorded name that saves most, if any, has fewer than five jumps and a match that begins at a label; then all recorded names stay, the new one is recorded, ends at the new write offset and is as short as the recorded names allow; no earlier byte changes, and it succeeds if there is room for the whole name |
| MdnsOut.OutPacket.AddQuestion | network/lwip_mdns/mdns_server.c:903-952 | a question is added exactly if there is room in 500 bytes, behind all others; the bytes of its type and class, with the unicast bit on top, are in network byte order behind the name; all others stay as they were; a name whose match does not begin at a label does not read back, one compressed against five jumps neither |
| MdnsOut.OutPacket.AddAnswer | network/lwip_mdns/mdns_server.c:971-1042 | an answer is added, and the bytes of type, class with the flush bit on top, TTL and length are in network byte order behind the name, the data behind them; all others stay as they were; it is refused if the longest form has no room, and then nothing has changed, and added if it has, even if it fills the packet; a name whose match does not begin at a label does not read back |
| MdnsOut.OutPacket.FillLength | network/lwip_mdns/mdns_server.c:1037-1039 | the length filled in later is that of the record data, and changes no earlier name |
| MdnsLayout.QuestionReads | network/lwip_mdns/mdns_server.c:1086-1111 | a question in the packet is read back, or cannot be read because its name has six jumps |
| MdnsLayout.AnswerReads | network/lwip_mdns/mdns_server.c:1121-1170 | an answer in the packet is read back with flags, TTL and data, or cannot be read because its name has six jumps |
| MdnsLayout.EntryWire | network/lwip_mdns/mdns_server.c:903-1042 | every record of a packet is on the wire as section 4.1 of RFC 1035 says, byte by byte |
| MdnsLayout.QuestionInBytes | network/lwip_mdns/mdns_server.c:1086-1111 | what is read of a question in terms of the bytes, for every packet and offset, and when it can be read |
| MdnsLayout.AnswerInBytes | network/lwip_mdns/mdns_server.c:1121-1170 | what is read of an answer in terms of the bytes, for every packet and offset, and when it can be read |
| MdnsIn.InPacket.ReadRr | network/lwip_mdns/mdns_server.c:1052-1076 | name, type and class at the parse offset, or an error |
| MdnsIn.InPacket.ReadQuestion | network/lwip_mdns/mdns_server.c:1086-1111 | the next question, byte by byte: name, type, class and its highest bit, or an error exactly if none is left, the name cannot be read or fewer than four bytes follow it |
| MdnsIn.InPacket.ReadAnswer | network/lwip_mdns/mdns_server.c:1121-1170 | the next answer, byte by byte: name, type, class and its highest bit, TTL and length in network byte order, or an error exactly if questions or no answers are left, the name cannot be read or fewer than ten bytes follow it |
| MdnsIn.InPacket.ReadAll | network/lwip_mdns/mdns_server.c:1052-1170 | all questions and answers in order, exactly if every one can be read |
| MdnsIn.PacketReads | network/lwip_mdns/mdns_server.c:903-1170 | packets round-trip: all questions and answers that were added are read back in order, if and only if no name at the head of one has more than five jumps |
| MdnsIn.FewLabelsReadable | network/lwip_mdns/mdns_server.c:840-889 | names of at most five labels, at the head of a record or in its data, never have more than five jumps |
| MdnsIn.ShortNamesRead | network/lwip_mdns/mdns_server.c:903-1170 | if all names that were added have at most five labels, everything is read back, also the names in the data of answers |
| MdnsIn.Exchange | network/lwip_mdns/mdns_server.c:903-1170 | what is built up by additions, sent and parsed arrives as it was added, if and only if no name at the head of a record has more than five jumps |
| MdnsProbe.Host.Probe | network/lwip_mdns/mdns_server.c:2022-2051 | a timer step announces exactly when it is the first moment at which the name is earned |
| MdnsProbe.Host.HandleAnswer | network/lwip_mdns/mdns_server.c:1787-1850 | a conflict is reported exactly while probing |
| MdnsProbe.Host.HandleQuestion | network/lwip_mdns/mdns_server.c:1575-1579 | a question is answered if and only if the name has been earned |
| MdnsProbe.Host.Announce | network/lwip_mdns/mdns_server.c:2320-2343 | after every sequence of events an announcement goes out if and only if the name has been earned |
| MdnsProbe.Host.Restart | network/lwip_mdns/mdns_server.c:2359-2378 | probing starts anew, whatever the state was |
| MdnsProbe.EarnedIsComplete | network/lwip_mdns/mdns_server.c:2022-2051 | after every sequence of events: probing is complete if and only if, since the last restart, a timer step came when three probes had been sent and no conflicting answer had come after the first |
| MdnsProbe.ThreeProbes | network/lwip_mdns/mdns_server.c:2022-2051 | three probes and one more timer step complete probing, the three probes alone do not |
| MdnsProbe.ProbingIsOngoing | network/lwip_mdns/mdns_server.c:2022-2051 | after every sequence of events: a conflict would be reported if and only if a probe has been sent since the last restart and the name has not been earned |
| MdnsProbe.ConflictIsFinal | network/lwip_mdns/mdns_server.c:1787-1850 | after a conflict nothing completes, and no timer runs, until a restart |
| SsiScan.TagRecognised | network/httpd/httpd.c:1258-1437 | a tag outside of other tags is recognised: lead-in, white space, name, white space, lead-out, in both notations |
| SsiTags.TagSound | network/httpd/httpd.c:1258-1437 | what is recognised is a tag: lead-in, white space, a name of one to eight characters, white space and lead-out stand in the file and end there |
| SsiTags.OutIncluded | network/httpd/httpd.c:1219-1550 | the output for every file is the file, cut where a tag ends or what might have been one does not go on, with an insert behind each piece that is a tag |
| SsiTags.NoTags | network/httpd/httpd.c:1219-1550 | a file in which no tag ends is sent as it is |
| SsiTags.TagExamples | network/httpd/httpd.c:330-333 | both notations of a tag |
| SsiSend.Connection.constructor | network/httpd/httpd.c:2319-2366 | a new connection has sent nothing and is at the start of its file, in memory or to be read in blocks |
| SsiSend.Connection.HttpWrite | network/httpd/httpd.c:533-587 | less and less is tried; any amount may be taken, and exactly that is sent |
| SsiSend.Connection.ScanChar | network/httpd/httpd.c:1262-1438 | one round of the scanner is one step of the one-pass machine, and keeps the account of what has been sent |
| SsiSend.Connection.SendDataSsi | network/httpd/httpd.c:1219-1550 | terminates for every pattern of answers; what has been sent stays the output for as much of the file as has been sent |
| SsiSend.Connection.CheckEof | network/httpd/httpd.c:1094-1185 | the next block, the end exactly if the whole file has been read, a failure of the file or of memory, or an insert whose place is gone |
| SsiSend.Connection.Send | network/httpd/httpd.c:1559-1624 | one call of `http_send` keeps the account of what has been sent; what it means that it gets stuck, closes or fails |
| SsiSend.Connection.SendStale | network/httpd/httpd.c:1219-1550 | what happens to an insert whose block has been replaced: it comes out behind bytes of the new block, for every file, insert and block, and what has been sent is no prefix of the output any more if their first bytes differ |
| SsiSend.Connection.SentSoFar | network/httpd/httpd.c:1219-1624 | what has been sent is a prefix of the output; at the end only the rest of an insert can be missing |
| SsiSend.Serve | network/httpd/httpd.c:1219-1624 | over every run, also with failing reads and allocations: until an insert is overtaken by a new block, a prefix of `Included` has been sent, the file cut at the ends of its tags with the inserts between; at the end of the file all of it, unless a tag ends exactly where a block ends |
| PrintInt.Output.Digits | libc/newlibc/debug.c:177-199 | digits and marks are written from right to left, within the room there is |
| PrintInt.EraseGrouped | libc/newlibc/debug.c:177-199 | grouping only adds marks between the digits of the number |
| PrintInt.FormatInt | libc/newlibc/debug.c:84-207 | the length of the whole text is returned, as much of it as there is room for is written, nothing outside; the text has the shape `IsNumber` |
| PrintInt.IntShape | libc/newlibc/debug.c:84-207 | the text of every value, with every flag, base, width and precision: digits of the base in the right case with that value and no more than asked for, marks every three or four digits, sign, prefix, length at least the width, and padding on the side and with the character asked for |
| Printf.Vsnprintf | libc/newlibc/debug.c:520-851 | for every format, arguments and size: the copying loop runs away if and only if a string or character conversion is reached with a precision below -1; otherwise the full length is returned, the buffer holds the beginning of the unlimited output and a zero, nothing behind; for every format of characters and conversions that output is what the conversions mean (`PrintsAll`); the loop that reads characters again terminates |
| Printf.EmitString | libc/newlibc/debug.c:750-791 | strings and characters with precision and padding; exactly when the copying loop runs away |
| PrintfLaw.ConversionText | libc/newlibc/debug.c:545-842 | for every flags, width, precision, length letters and arguments: d and i print the argument taken to the size named as a signed decimal number, u, o, x and X as an unsigned one in base 10, 8 and 16, p and P as a pointer, s and c the clipped string, padded; what is behind is printed with the arguments left |
| PrintfLaw.FormatPrints | libc/newlibc/debug.c:520-851 | every format of characters and conversions prints its characters as they are and one conversion after the other |
| PrintfSteps.PrecBelow | libc/newlibc/debug.c:604-616 | a precision gets below -1 if and only if its last `*` takes a negative argument and a digit other than 9 follows it |
| PrintfSteps.StarPrecision | libc/newlibc/debug.c:604-782 | for every argument, string and digits: "%.*", the digits and "s" run away if and only if the argument is negative and one of the digits is not 9 |
| PrintfSteps.RunawayExample | libc/newlibc/debug.c:604-782 | "%.*5s" with the argument -1 |
| ScanInt.Strntoumax | libc/newlibc/vsscanf.c:117-169 | value modulo 2^64 and end of the number, for every text and base |
| ScanInt.PrintThenScan | libc/newlibc/debug.c:84-207 | for every 64-bit value, base 8, 10 or 16, flags without grouping, width and precision: scanning the text gives the value and stops exactly before the padding |
| ScanInt.ShapeScans | libc/newlibc/vsscanf.c:117-169 | whatever has the shape of a number, in base 8, 10 or 16 without marks, is read as that number modulo 2^64 |
| ScanInt.ShapeScansAny | libc/newlibc/vsscanf.c:138-151 | with base 0: what has '#', and decimal numbers without zeros in front, are read as the number |
| ScanInt.OctalExample | libc/newlibc/vsscanf.c:138-151 | with base 0, "010" is eight |
| ScanInt.NumberMeaning | libc/newlibc/vsscanf.c:117-169 | for every text and base: white space, a sign, the base given or that of the prefix, and as many digits as there are, of ten figures and 26 letters in either case |
| Dhcp.SearchEnds | network/lwip_dhcpd/dhcp_server_raw.c:240-251 | the search comes to an end if and only if an address of the pool is free |
| Dhcp.TriesInRange | network/lwip_dhcpd/dhcp_server_raw.c:241-250 | all addresses tried are in the range if and only if it does not reach up to the last address of all |
| Dhcp.NthRound | network/lwip_dhcpd/dhcp_server_raw.c:240-251 | addresses are tried one after the other, round the range |
| Dhcp.RightConsistent | network/lwip_dhcpd/dhcp_server_raw.c:360-476 | if every reply gives a client its own address, no client is given two and no two are given the same |
| Dhcp.Server.Find | network/lwip_dhcpd/dhcp_server_raw.c:173-203 | the client's own node, whatever address it asks for |
| Dhcp.Server.Search | network/lwip_dhcpd/dhcp_server_raw.c:240-251 | within so many tries an address is found if and only if `Within` says so; it is the first of those tried that nobody holds; from inside of the pool the search stays in the pool |
| Dhcp.Server.Alloc | network/lwip_dhcpd/dhcp_server_raw.c:213-264 | a client keeps its address; a new one gets the first address from the current one on, round the pool, that nobody holds, in front of the list; exactly when the search is still going on after so many tries, and then nothing has changed |
| Dhcp.Server.Discover | network/lwip_dhcpd/dhcp_server_raw.c:360-377 | the offer is the client's address, or one that nobody holds; nobody else's address changes; exactly when there is no offer |
| Dhcp.Server.Request | network/lwip_dhcpd/dhcp_server_raw.c:460-476 | acknowledged with the client's address if and only if it holds one, refused otherwise |
| Dhcp.Server.Reset | network/lwip_dhcpd/dhcp_server_raw.c:656-666 | any new range leaves all clients their addresses |
| Dhcp.Server.RunConsistent | network/lwip_dhcpd/dhcp_server_raw.c:213-687 | at any point of any run of DISCOVER, REQUEST and range resets the replies are consistent |
| JsonCompare.CompareCovers | stage/cjson/cJSON.c:3095-3108 | one of the two loops over members: every member has an equal one on the other side |
| JsonCopy.DuplicateKids | stage/cjson/cJSON.c:2772-2795 | the copies of the children so far are like them, linked in order and new; the last one is known |
| JsonDiff.Patches.RemoveRest | stage/cjson/cJSON_Utils.c:1192-1205 | one removal per left-over element, all at the same index |
| JsonDiff.Patches.AddRest | stage/cjson/cJSON_Utils.c:1206-1210 | one addition at "-" per new element |
| JsonPointer.SelectChild | stage/cjson/cJSON_Utils.c:313-336 | the child that the first token selects, of an array, an object or anything else |
| JsonMergeDiff.PatchMerged | stage/cjson/cJSON_Utils.c:1416-1462 | a patch that is right in every key leads to `to` if and only if the nulls of `to` are kept; an empty one means that there is no difference |
| JsonString.WriteUtf8 | stage/cjson/cJSON.c:755-770 | the loop writes the bytes of a code point, from the last to the first, and nothing else |
| JsonString.DecodeOne | stage/cjson/cJSON.c:831-881 | one round of the second pass, and that it writes nothing in front |
| JsonParse.ParseBuffer.ParseString | stage/cjson/cJSON.c:781-908 | the decoded literal and the offset behind it, or failure |
| JsonOutput.EscapedLength | stage/cjson/cJSON.c:938-962 | the length of the escaped form is counted before it is written |
| MdnsCompress.UnalignedUnreadable | network/lwip_mdns/mdns_server.c:806-823 | if the name can be read at a match at all, the match begins at a label |
| MdnsProbe.Host.HandleAddressChange | network/lwip_mdns/mdns_server.c:1943-1947 | a change of address is announced if and only if the name has been earned |
| MdnsProbe.AlwaysAgree | network/lwip_mdns/mdns_server.c:2022-2051 | the state of the host and what happened agree after every sequence of events |
| SsiScan.OutPlain | network/httpd/httpd.c:1219-1550 | where no tag ends, the file is sent as it is |
| SsiSend.Connection.ScanLeadIn | network/httpd/httpd.c:1285-1309 | one character of a lead-in is one step of the machine |
| SsiSend.Connection.ScanFound | network/httpd/httpd.c:1311-1362 | one character of a tag name is one step of the machine |
| SsiSend.Connection.ScanLeadOut | network/httpd/httpd.c:1364-1438 | one character of a lead-out is one step of the machine; at its end the insert for the name is asked for, and only behind a tag (`TagSound`) |
| SsiSend.Connection.SendInsert | network/httpd/httpd.c:1485-1501 | a part of the insert is sent and accounted for |
| SsiSend.Connection.ReadBlock | network/httpd/httpd.c:1152-1180 | the next block of any size continues the file where the last one ended |
| PrintInt.Output.Emit | libc/newlibc/debug.c:77-77 | a character is accounted for, and written if there is room |
| PrintInt.Measure | libc/newlibc/debug.c:98-150 | number of digits with precision and octal prefix, marks, and width that is left |
| Printf.Scan | libc/newlibc/debug.c:545-842 | one character of the format is one step of `Step`, with all flags, widths, precisions and length modifiers; what the steps amount to is `ConversionText` |
| ScanInt.ReadDigits | libc/newlibc/vsscanf.c:159-163 | the digits are used up to the first that is none in this base; their value |
| Dhcp.Server.constructor | network/lwip_dhcpd/dhcp_server_raw.c:668-687 | a new server has no clients |
| Dhcp.Server.FindByMac | network/lwip_dhcpd/dhcp_server_raw.c:120-134 | the first node of a client, or none |
| Dhcp.Server.FindByIp | network/lwip_dhcpd/dhcp_server_raw.c:144-163 | the first node with an address, or none |

## Left out

- MdnsOut.OutPacket.WriteDomain: names have at most 255 octets; on a name of 256 the scan of the compressor can leave the name (`FindMatch`), and what it reads there is not modelled.
- MdnsOut.OutPacket.AddQuestion: once a name has been written that does not read back, nothing is said about later additions.
- MdnsOut.OutPacket.AddAnswer: that the name in the data reads back is stated where no length byte of any name occurs as a character, which is sufficient for every match to begin at a label; the exact condition for one name is that of `WriteDomain`. Not stated whether a data buffer of no bytes is taken if the longest form fills the packet exactly; that depends on whether the name could be compressed. After a data buffer too long for any packet nothing is promised. Allocation of the packet does not fail.
- MdnsIn.PacketReads: the packet buffer is one piece, and counts in the header are those of the added entries; encoding of the header is left out.
- mDNS services, TXT data, link-local addresses, sending and receiving datagrams, and the choice of which records to answer with.
- JSON floating-point numbers: numbers are integers, `strtod` is a parameter; it is required to be exact on printed `int`s only where printed texts are read back.
- JsonParse.ParseBuffer.ParseArray: trees are values; that the parser links new nodes with right back links is not modelled, and allocation does not fail.
- JsonParse.ParseBuffer.ParseObject: the same as for arrays.
- JSON allocation failure, custom allocators, reference and constant-key flags, the position of a parse error, and `cJSON_Minify`.
- JsonDocument.Document.ApplyPatch: what is reached through a back link that leads out of its list is not followed: the status is `None` then. After "test" on a document with right back links, links lead into the list or nowhere (`SortedRight`). The patch's own value, which "test" sorts as well, is not read again by the same patch; a "move" with a "from" that is not a string is undefined in the source and status 5 here.
- JsonOutcome.RemoveOutcome: where several keys are the same but for case, which of them is taken out is not determined by the meaning of the document; it is the first (`RemoveMeant`).
- JsonSurgery.AddItem: a back link that leads out of the list is excluded.
- JsonPatchRun.PatchRun: the document is another one than the arguments of the generator, which sorts them; applying the patches to `from` itself afterwards is not covered.
- JsonDiffLaw.PatchLaw: the condition on keys is sufficient for every pair of trees and proved necessary for single members (`SingleKeyLaw`, `RemoveMeant`); arrays have at most 2^32 elements, as an index is a `size_t` of 32 bits.
- JsonMergeDiff.MergeRoundTrip: that the walk pairs the common keys at every level is sufficient; it is exact for the walk (`WalkPairs`), and the round trip without it is characterised for objects without objects in them and without new nulls (`FlatRoundTrip`). No two keys at one level may differ only in case.
- JsonPointer.FindPointer: a node is known by its address in the tree, so trees that share nodes are not modelled.
- JsonList.SortList: keys do not change while a list is edited; all children have a key.
- JsonSurgery.Detach: an item that is not null is a child of the parent, as callers in the source look it up first.
- SsiSend.Serve: that no tag ends where a block ends is sufficient for the whole output, not necessary; otherwise it depends on how much TCP takes at that moment. The run ends when an insert has lost its block; `SendStale` says what the next bytes are.
- Server-side includes with tags taken out of the output, with inserts in several parts, and files read asynchronously.
- HTTP headers, CGI, POST, keep-alive and file lookup.
- PrintfLaw.FormatPrints: formats are sequences of characters and of conversions with flags, width, precision and length letters in this order; what a conversion prints that has digits behind a star, or ends in the middle, follows from the steps only.
- Printf.Vsnprintf: what is printed once the copying loop has run over its string is not modelled; `%f` is not modelled, `%n` prints nothing and its store is left out; widths and precisions do not overflow; arguments that are missing or of another kind read as 0 or a null string.
- `vsscanf` conversions other than the number scanner.
- Dhcp.Server.Alloc: hardware addresses have six bytes; the search takes a number of tries to look at, as with a full pool it does not come to an end (`SearchEnds`).
- DHCP RELEASE, whose loop advances twice per turn, the encoding of messages and options, and the list of DNS servers.
- Wi-Fi, Bluetooth, file systems, other protocol clients, and everything that touches hardware.

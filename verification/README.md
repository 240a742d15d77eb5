# Verified models of the HMI board software

This project models the algorithmic parts of the HMI board firmware and proves what they
promise: the JSON library (cJSON and cJSON_Utils), the INI reader and writer (minIni), the
mailbox between the screen and the AI chat worker, and the two games.

A JSON document is a value (`JsonValue.Json`) whose members keep the order of the child list.
"Equal up to member order" is equality of `Abs`, which turns members into maps, under folded
keys where case is ignored. Strings are sequences of characters without NUL, a character
below 256 being a byte. size_t is 32 bits wide, as on the board.

Code that works step by step is a method or a class here, proved against a function that
says what it computes; what the source promises is then proved about the function.

- `CString`, `JsonValue`, `ListSort`: C strings and key order, documents, the merge sort.
- `JsonCompare`, `JsonPointer`, `JsonPatch`, `JsonDiff`, `JsonMerge`: cJSON_Utils on values;
  `JsonRoundTrip` and `JsonMergeRoundTrip` prove where applying undoes generating,
  `JsonPatchExact` and `JsonMergeExact` that it does so nowhere else; `JsonLoops`
  holds the loops over strings, buffers and child lists; `JsonPatchMeaning` says what each
  operation of a patch does to a document.
- `ListNodes`, `NodeSort`: child lists as linked nodes, and sorting them in place.
- `JsonText`, `JsonTextRoundTrip`: what is printed and parsed, and that parsing undoes
  printing; `JsonGrammar`: exactly which texts are accepted, and what they mean;
  `JsonLayout`: how printed text looks; `JsonUnicode`: escapes and UTF-8; `JsonParser`,
  `JsonPrinter`: the parser and the printer over their buffers.
- `IniText`, `IniFile`, `IniRoundTrip`: the INI format, and that writing is read back;
  `IniMeaning`: what any line of any file means; `IniBuffer`, `IniStream`,
  `IniCopy`: minIni over its line buffer, files and copy cache.
- `AiChat`: the chat protocol as a state machine over the atomic steps of all threads.
- `Line2048`, `Game2048`, `Board2048`, `Rules2048`, `Snake`: the games.

Where the code and what is expected of it differ, the model follows the code:

- `decode_pointer_inplace` damages a last token with an escaped slash, and most with an escaped
  tilde; the exact set of keys that survive is `JsonPatch.Survives`, and the exact condition
  for generated patches to work is `JsonPatchExact.ChangesSurvive`.
- Members are detached ignoring case even in the case-sensitive functions.
- `generate_merge_patch` sorts ignoring case and walks by strcmp, and generates nested patches
  with the case-ignoring function; `JsonMergeRoundTrip.UpperCaseFails` is a concrete failure,
  and `JsonMergeExact.MergesBack` the exact condition.
- The parser takes more than RFC 8259: a malformed `\u` escape, with its digits read as zero;
  any control character as a blank, or by itself in a string; a number as far as strtod reads
  the first 63 characters of it; anything behind the value, unless the end is asked for.
- A written INI value with a blank at either end that is not put in quotes loses its blanks.
- Food may be put under the snake when 200 tries find no free cell.
- The chat protocol is right for one requesting thread only (`AiChat.OneRequesterOnly`), and
  its lock only if it is initialised before a second thread calls (`AiChat.LockFirst`).

## Model

| member | source | states |
|---|---|---|
| JsonPatchExact.PatchRoundTrip | components/packages/cJSON-latest/cJSON_Utils.c:1142-1280 | Generated patches, applied in order to any document equal to `from`, all return 0 and give a document that compare_json finds equal to `to` (section 4 of RFC 6902), if and only if the key of every member removed, added or replaced, at every level both documents have, survives being encoded and decoded in place; sibling keys differ ignoring case |
| JsonPatchExact.PatchRoundTripSurviving | components/packages/cJSON-latest/cJSON_Utils.c:808-1066 | Nothing goes wrong where all keys survive, as all keys without `~` and `/` do |
| JsonPatchExact.OneMemberReplaced | components/packages/cJSON-latest/cJSON_Utils.c:431-482 | A single value replaced in an object of any size: it comes out right if and only if its key survives |
| JsonPatchExact.Climbs | components/packages/cJSON-latest/cJSON_Utils.c:360-391 | Decoding a damaged key always raises it in one and the same order, so that damaged keys never stand in for each other in a circle |
| JsonPatchExact.LightestSpared | components/packages/cJSON-latest/cJSON_Utils.c:1216-1275 | Of the damaged keys that are touched, the lightest names a member that no other change of the same object gets at |
| JsonRoundTrip.PatchFailsOnKey | components/packages/cJSON-latest/cJSON_Utils.c:431-482 | The status where there is no other member to be mistaken for it: the patch for the only member of an object returns 13 and leaves the document alone, unless the key survives |
| JsonPatch.DecodeTokenExact | components/packages/cJSON-latest/cJSON_Utils.c:360-391 | decode_pointer_inplace undoes encode_string_as_pointer on exactly the surviving keys |
| JsonPatch.DecodeTokenFolded | components/packages/cJSON-latest/cJSON_Utils.c:360-391 | The same question under the case-ignoring match that detaching uses: no further key is saved by it |
| JsonPatch.PlainSurvives | components/packages/cJSON-latest/cJSON_Utils.c:360-391 | Every key without `~` and `/` survives |
| JsonPatch.DetachExact | components/packages/cJSON-latest/cJSON_Utils.c:431-482 | A member is found again for removal, which always ignores case, exactly if its key survives |
| JsonDiff.PatchesAreEdits | components/packages/cJSON-latest/cJSON_Utils.c:1097-1135 | Applying the composed patch objects performs the edits they stand for, with the same status |
| JsonDiff.EditsRebase | components/packages/cJSON-latest/cJSON_Utils.c:1142-1280 | Patches generated below a path are the patches generated at the root with the path put in front |
| JsonDiff.RunLocal | components/packages/cJSON-latest/cJSON_Utils.c:302-347 | Edits below one child change that child as they would change it alone, and nothing else |
| JsonRoundTrip.ReplaceElement | components/packages/cJSON-latest/cJSON_Utils.c:808-1036 | Replacing an array element, which removes and re-inserts, puts the new value at the same index |
| JsonLoops.CreatePatches | components/packages/cJSON-latest/cJSON_Utils.c:1142-1280 | The walk over both child lists appends exactly the patch objects of the specified edits to the list |
| JsonLoops.ArrayPatches | components/packages/cJSON-latest/cJSON_Utils.c:1171-1214 | Three loops: common elements are compared, left-over ones removed at one index, missing ones appended with `-` |
| JsonLoops.ObjectPatches | components/packages/cJSON-latest/cJSON_Utils.c:1216-1275 | The side-by-side walk over both sorted member lists |
| JsonLoops.ComposePatch | components/packages/cJSON-latest/cJSON_Utils.c:1097-1135 | One patch object is appended, its path the encoded suffix behind the given path |
| JsonLoops.ApplyInOrder | components/packages/cJSON-latest/cJSON_Utils.c:1039-1066 | Patches are applied one after the other until one fails; what the earlier ones did stays |
| JsonPatchMeaning.TestDecides | components/packages/cJSON-latest/cJSON_Utils.c:832-837 | A test succeeds if and only if the node is there, a value is given, and the two are equal up to member order; the value of the document is the same afterwards |
| JsonPatchMeaning.RemoveMeans | components/packages/cJSON-latest/cJSON_Utils.c:888-903 | remove takes the one member or element out of the node its parent pointer leads to; where there is none it fails with 13 and changes nothing |
| JsonPatchMeaning.AddMeans | components/packages/cJSON-latest/cJSON_Utils.c:942-1025 | add binds the key to the value in an object, inserts it at the index or appends it for `-` in an array; an index beyond the end, or a parent without children, is refused |
| JsonPatchMeaning.ReplaceMeans | components/packages/cJSON-latest/cJSON_Utils.c:888-1025 | replace exchanges the value of one member or element, at its place; where there is none it fails with 13 and changes nothing |
| JsonPatchMeaning.CopyMeans | components/packages/cJSON-latest/cJSON_Utils.c:907-937 | copy puts in what stands at `from`, wherever that is, and leaves it there |
| JsonPatchMeaning.MoveMeans | components/packages/cJSON-latest/cJSON_Utils.c:907-937 | move takes out what stands at `from` and puts it in where `path` leads then |
| JsonPatchMeaning.MoveWithin | components/packages/cJSON-latest/cJSON_Utils.c:907-937 | move inside one parent changes that parent alone |
| JsonPatchMeaning.MovedMember | components/packages/cJSON-latest/cJSON_Utils.c:907-937 | Seen as a map, the value has left its old key for the new one, and every other member is as before |
| JsonPatchMeaning.MovedElement | components/packages/cJSON-latest/cJSON_Utils.c:907-937 | The element has left its index, and stands among the others at the index given, or behind them |
| JsonPatchMeaning.PutOnly | components/packages/cJSON-latest/cJSON_Utils.c:302-347 | A change at one place leaves every node that is neither above nor below it |
| JsonPatchMeaning.RootMeans | components/packages/cJSON-latest/cJSON_Utils.c:839-886 | At the root the whole document is replaced, or taken away |
| JsonPatchMeaning.Refused | components/packages/cJSON-latest/cJSON_Utils.c:818-831 | A patch without path, with another operation, or with nothing to add is refused, with 2, 3 or 7, and changes nothing |
| JsonPatchMeaning.NoSource | components/packages/cJSON-latest/cJSON_Utils.c:907-930 | A move or copy without source is refused with 4 or 5 and changes nothing |
| JsonPatchMeaning.FirstFailure | components/packages/cJSON-latest/cJSON_Utils.c:1039-1066 | The first patch that fails ends the list, and what the earlier ones did stays |
| JsonPointer.PointerRoundTrip | components/packages/cJSON-latest/cJSON_Utils.c:199-347 | The pointer found for a node is the one its location spells, and following it leads back to that very node if and only if no earlier sibling on the way has a key that compares equal (sections 3 to 5 of RFC 6901) |
| JsonPointer.FoundPointerResolves | components/packages/cJSON-latest/cJSON_Utils.c:199-347 | With distinct sibling keys of any bytes, GetPointerCaseSensitive undoes FindPointerFromObjectTo for every node |
| JsonPointer.EncodeMatches | components/packages/cJSON-latest/cJSON_Utils.c:121-197 | An encoded key, in front of any rest, is matched by exactly the names that compare equal to it |
| JsonPointer.DecodeDecimal | components/packages/cJSON-latest/cJSON_Utils.c:275-300 | A written array index is read back, below the 32-bit limit of size_t |
| JsonPointer.TokenMatchesExact | components/packages/cJSON-latest/cJSON_Utils.c:121-155 | Any token at all: it names exactly the keys equal to what section 4 of RFC 6901 makes of it, and nothing if an escape in it is bad |
| JsonPointer.DecodeIndexExact | components/packages/cJSON-latest/cJSON_Utils.c:275-300 | Which array tokens are accepted at all, leading zeros and characters behind the digits included |
| JsonLoops.ComparePointers | components/packages/cJSON-latest/cJSON_Utils.c:121-155 | The loop over name and token decides whether the token names the key |
| JsonLoops.PointerEncodedLength | components/packages/cJSON-latest/cJSON_Utils.c:158-171 | The counted length is the length of the encoding |
| JsonLoops.EncodeStringAsPointer | components/packages/cJSON-latest/cJSON_Utils.c:174-197 | The cursor writes the encoding and a NUL, and nothing in front of it |
| JsonLoops.DecodeArrayIndex | components/packages/cJSON-latest/cJSON_Utils.c:275-300 | The digit loop, including the leading-zero rule and the test of the first character |
| JsonLoops.DecodePointerInplace | components/packages/cJSON-latest/cJSON_Utils.c:360-391 | The two cursors in one buffer leave the specified decoded text |
| JsonLoops.SelectChild | components/packages/cJSON-latest/cJSON_Utils.c:314-337 | One pointer step: by index in an array, by name in an object, nowhere in anything else |
| JsonLoops.GetItemFromPointer | components/packages/cJSON-latest/cJSON_Utils.c:302-347 | Following a pointer token by token reaches the specified node, or none |
| JsonLoops.FindPointerTo | components/packages/cJSON-latest/cJSON_Utils.c:199-260 | The depth-first search returns the pointer of the specified function |
| JsonCompare.CompareJsonCorrect | components/packages/cJSON-latest/cJSON_Utils.c:605-691 | compare_json is equality up to member order, for distinct sibling keys, with or without case |
| JsonCompare.CompareItemsCorrect | components/packages/cJSON-latest/cJSON.c:2986-3109 | cJSON_Compare, by looking up both ways, is the same equality |
| JsonCompare.ComparisonsAgree | components/packages/cJSON-latest/cJSON_Utils.c:605-691 | The sort-based and the lookup-based comparison agree on every pair of documents with distinct sibling keys |
| JsonCompare.RepeatedKeys | components/packages/cJSON-latest/cJSON.c:2986-3109 | Without distinct keys they differ: compare_json finds every object equal to a copy of itself, cJSON_Compare if and only if all values under one key are equal |
| JsonLoops.CompareTrees | components/packages/cJSON-latest/cJSON_Utils.c:605-691 | The pairwise loops decide the specified comparison |
| JsonLoops.CompareMembers | components/packages/cJSON-latest/cJSON_Utils.c:657-683 | The walk over two sorted member lists stops at the first difference |
| CString.CompareIgnoringCase | components/packages/cJSON-latest/cJSON_Utils.c:84-110 | The tolower loop has the sign of comparing the folded strings, and is zero exactly if they fold alike |
| CString.LessTotal | components/packages/cJSON-latest/cJSON_Utils.c:84-110 | The key order is a strict total order whose ties are equal strings |
| CString.StrcmpExact | components/packages/cJSON-latest/cJSON_Utils.c:96-99 | The first difference decides, and a string comes behind its own beginnings |
| CString.FoldsAlike | components/packages/cJSON-latest/cJSON_Utils.c:101-109 | Two characters count as equal exactly if they are the same or one letter in both cases |
| JsonMerge.MergePatchIsRfc | components/packages/cJSON-latest/cJSON_Utils.c:1322-1380 | merge_patch computes the MergePatch function of section 2 of RFC 7396 on members seen as maps, for every target and patch with distinct keys, and keeps keys distinct |
| JsonMergeExact.MergePatchRoundTrip | components/packages/cJSON-latest/cJSON_Utils.c:1392-1472 | For all documents with keys distinct ignoring case, and either mode for generating and for merging: merging the generated patch into any document equal to `from` gives one equal to `to` if and only if the two merge back, as seen on the strcmp walk over the two sorted lists: no key is removed again after a matching one was set, no null is asked for, and values met under one key merge back in turn |
| JsonMergeExact.CaseFreeMergesBack | components/packages/cJSON-latest/cJSON_Utils.c:1392-1472 | On keys for which ignoring case keeps the order, documents merge back if and only if `to` is expressible: no null member appears that `from` does not already have |
| JsonMergeExact.Nulled | components/packages/cJSON-latest/cJSON_Utils.c:1436-1442 | A key of `from` without a match in what is left of `to` is gone in the end, even if it was set before |
| JsonMergeRoundTrip.MergePatchRoundTripLower | components/packages/cJSON-latest/cJSON_Utils.c:1392-1472 | The plain case: keys without upper-case letters and a `to` without null members |
| JsonMergeRoundTrip.UpperCaseFails | components/packages/cJSON-latest/cJSON_Utils.c:1407-1463 | Upper-case letters break it: the patch from {"a":1,"B":2} to {"B":2} sets B and then removes it |
| JsonLoops.MergeInto | components/packages/cJSON-latest/cJSON_Utils.c:1322-1380 | The loop over the patch members changes the target as specified |
| JsonLoops.GenerateMerge | components/packages/cJSON-latest/cJSON_Utils.c:1392-1472 | Generation: a copy of `to` where one side is no object, no patch where nothing differs |
| JsonLoops.MergeWalk | components/packages/cJSON-latest/cJSON_Utils.c:1417-1463 | The strcmp walk over both sorted lists emits the specified members |
| ListNodes.AddItemToArray | components/packages/cJSON-latest/cJSON.c:1956-1987 | Appending a detached node appends it to the sequence and keeps all links; the refused calls change nothing |
| ListNodes.InsertItemInArray | components/packages/cJSON-latest/cJSON.c:2263-2290 | Insertion at an index, or at the end when the index is beyond it; negative indices are refused |
| ListNodes.InsertInside | components/packages/cJSON-latest/cJSON_Utils.c:694-729 | Insertion that is refused beyond the end |
| ListNodes.DetachItemViaPointer | components/packages/cJSON-latest/cJSON.c:2187-2221 | The node leaves the sequence without links, and the list keeps its own, including head to tail |
| ListNodes.DetachItemFromArray | components/packages/cJSON-latest/cJSON_Utils.c:394-428 | The same by index; an index beyond the end changes nothing |
| ListNodes.DetachItemFromObject | components/packages/cJSON-latest/cJSON.c:2238-2250 | The first member with the name leaves, as in the value model |
| ListNodes.ReplaceItemViaPointer | components/packages/cJSON-latest/cJSON.c:2292-2339 | The replacement takes the place and the links of the node, at the head, in the middle or at the tail |
| ListNodes.GetArrayItem | components/packages/cJSON-latest/cJSON.c:1851-1868 | Walking the links reaches the node at the index, or none |
| ListNodes.GetObjectItem | components/packages/cJSON-latest/cJSON.c:1880-1910 | The first child whose name compares equal |
| NodeSort.SortList | components/packages/cJSON-latest/cJSON_Utils.c:485-594 | sort_list terminates and re-links the same nodes, in place, in the order of the specified merge sort; every node but the first has its predecessor as `prev` |
| NodeSort.MergeLists | components/packages/cJSON-latest/cJSON_Utils.c:536-591 | The merge of two chains, the second list first on ties |
| NodeSort.Middle | components/packages/cJSON-latest/cJSON_Utils.c:511-522 | Two pointers at different speed stop in the middle, the first half the longer one |
| NodeSort.Split | components/packages/cJSON-latest/cJSON_Utils.c:523-528 | The chain is cut into two chains |
| NodeSort.IsAscending | components/packages/cJSON-latest/cJSON_Utils.c:499-508 | The test for a strictly sorted list |
| NodeSort.SortObject | components/packages/cJSON-latest/cJSON_Utils.c:596-603 | The sorted chain holds the same nodes in key order; nothing is promised of the first `prev` |
| NodeSort.DuplicateChildren | components/packages/cJSON-latest/cJSON.c:2749-2776 | Duplicating a child list makes new nodes for the same members with all links, head to tail included, even where sorting has lost that one |
| NodeSort.SortCommutes | components/packages/cJSON-latest/cJSON_Utils.c:485-603 | Seen as members, the sorted nodes are what the comparison and the patch generators sort |
| ListSort.SortedPermutes | components/packages/cJSON-latest/cJSON_Utils.c:485-594 | The sort is a permutation |
| ListSort.SortedOrders | components/packages/cJSON-latest/cJSON_Utils.c:485-594 | The sort orders by key |
| ListSort.SortedStrict | components/packages/cJSON-latest/cJSON_Utils.c:485-594 | Without ties the result is strictly ordered |
| JsonTextRoundTrip.PrintParseRoundTrip | components/packages/cJSON-latest/cJSON.c:902-1021 | Parsing the formatted or unformatted text of any tree of null, booleans, 32-bit integers, NUL-free strings, arrays and objects within the nesting limit gives the tree back (sections 2 to 7 of RFC 8259) |
| JsonGrammar.ParseExact | components/packages/cJSON-latest/cJSON.c:1079-1172 | For any text: it is accepted if and only if it is a byte order mark or none, blanks, a value as JsonGrammar spells it, which is RFC 8259 with the liberties named above, blanks between any two tokens, nested at most 1000 deep, and, where the end is asked for, blanks; and what is returned is what it spells |
| JsonGrammar.ValueExact | components/packages/cJSON-latest/cJSON.c:1312-1364 | The same for a value in front of any text, at any depth, the limit included; the parser stops right behind it |
| JsonGrammar.StringExact | components/packages/cJSON-latest/cJSON.c:773-899 | A string text is accepted if and only if its pieces are legal: plain characters, the eight two-character escapes of section 7 of RFC 8259, escaped code points, and escapes with bad digits; and what is returned is what they stand for |
| JsonGrammar.ProperString | components/packages/cJSON-latest/cJSON.c:773-899 | Every string text of the standard is read, to the characters of the table of its section 7 |
| JsonGrammar.EscapeRefused | components/packages/cJSON-latest/cJSON.c:836-871 | A backslash in front of any other letter, or a low surrogate without a high one, is refused whatever follows |
| JsonGrammar.CommaMissing | components/packages/cJSON-latest/cJSON.c:1508-1513 | Elements without a comma or bracket behind them are refused |
| JsonGrammar.ColonMissing | components/packages/cJSON-latest/cJSON.c:1670-1673 | A key without a colon behind it is refused |
| JsonGrammar.TrailingText | components/packages/cJSON-latest/cJSON.c:1126-1134 | Text behind the value is refused where the end is asked for, and ignored otherwise |
| JsonLayout.EscapeShortest | components/packages/cJSON-latest/cJSON.c:975-1016 | Each character is printed in a spelling the standard allows and in none longer than need be, digits in lower case |
| JsonLayout.CompactIs | components/packages/cJSON-latest/cJSON.c:1367-1438 | Unformatted text spells the value with no blank between its tokens |
| JsonLayout.FormattedIsPretty | components/packages/cJSON-latest/cJSON.c:1539-1825 | Formatted text is the unformatted text, read from left to right and broken into lines: tabs for the open brackets, a tab behind a colon, a space behind a comma between elements |
| JsonTextRoundTrip.IntegerRoundTrip | components/packages/cJSON-latest/cJSON.c:305-379 | The same with a decimal reader in place of strtod, nothing assumed |
| JsonTextRoundTrip.DecimalReads | components/packages/cJSON-latest/cJSON.c:353-357 | That reader reads the text of every 32-bit integer, so what the round trip asks of strtod can be met |
| JsonTextRoundTrip.ParseText | components/packages/cJSON-latest/cJSON.c:1312-1364 | Parsing stops right behind the value, whatever follows it |
| JsonTextRoundTrip.DecodeEscape | components/packages/cJSON-latest/cJSON.c:823-873 | Every escape the printer writes decodes to its character |
| JsonTextRoundTrip.QuoteFound | components/packages/cJSON-latest/cJSON.c:786-808 | The sizing pass finds the closing quote behind an escaped text |
| JsonParser.ParseWithOpts | components/packages/cJSON-latest/cJSON.c:1079-1172 | The whole parser, over a buffer with an offset and a depth, accepts and returns what the specification does |
| JsonParser.ParseBuffer.ParseValueItem | components/packages/cJSON-latest/cJSON.c:1312-1364 | parse_value refines its specification and moves the offset behind the value |
| JsonParser.ParseBuffer.ParseArrayItem | components/packages/cJSON-latest/cJSON.c:1441-1536 | parse_array, with the depth limit |
| JsonParser.ParseBuffer.ParseElementItems | components/packages/cJSON-latest/cJSON.c:1476-1513 | Its loop |
| JsonParser.ParseBuffer.ParseObjectItem | components/packages/cJSON-latest/cJSON.c:1601-1711 | parse_object, with the depth limit |
| JsonParser.ParseBuffer.ParseMemberItems | components/packages/cJSON-latest/cJSON.c:1634-1689 | Its loop |
| JsonParser.ParseBuffer.ParseMemberItem | components/packages/cJSON-latest/cJSON.c:1657-1682 | One member: name, colon, value |
| JsonParser.ParseBuffer.ParseNumberItem | components/packages/cJSON-latest/cJSON.c:305-379 | At most 63 number characters are handed to strtod, and as many are consumed as it used |
| JsonParser.ParseBuffer.ParseStringItem | components/packages/cJSON-latest/cJSON.c:773-899 | parse_string: sizing pass, allocation, decoding pass |
| JsonParser.ParseBuffer.SizeString | components/packages/cJSON-latest/cJSON.c:786-812 | The sizing pass finds the closing quote, and what it would allocate is one place for every unit it stepped over |
| JsonParser.ParseBuffer.DecodeString | components/packages/cJSON-latest/cJSON.c:819-877 | The decoding pass never stores more than the sizing pass allocated, for every NUL-terminated input, and decodes as specified |
| JsonParser.LiteralFits | components/packages/cJSON-latest/cJSON.c:652-770 | The heart of it: an accepted \u literal stores no more bytes than the sizing pass counted for the characters it consumes, even where the two passes disagree on where escapes begin |
| JsonParser.Utf16LiteralToUtf8 | components/packages/cJSON-latest/cJSON.c:652-770 | The literal is refused, or its UTF-8 form is stored and its length returned |
| JsonParser.EmitUtf8 | components/packages/cJSON-latest/cJSON.c:715-764 | The shift-and-mask loop, from the last byte to the first, stores the UTF-8 form of the code point |
| JsonParser.ParseHex4 | components/packages/cJSON-latest/cJSON.c:615-648 | Four hexadecimal digits, and 0 for anything else |
| JsonUnicode.EscapeIsRead | components/packages/cJSON-latest/cJSON.c:652-770 | Every code point but a lone surrogate, written as one escape or a surrogate pair, is emitted as exactly its UTF-8 form (section 3 of RFC 3629) and the whole escape is consumed |
| JsonUnicode.Utf8Reads | components/packages/cJSON-latest/cJSON.c:715-762 | What is emitted reads back as that code point, in shortest form |
| JsonUnicode.PairsCover | components/packages/cJSON-latest/cJSON.c:706-707 | Surrogate pairs cover U+10000 to U+10FFFF one to one (section 2.2 of RFC 2781) |
| JsonUnicode.LiteralExact | components/packages/cJSON-latest/cJSON.c:652-770 | An escape is accepted if and only if it spells, in digits of either case, a code point that is no surrogate, alone or as a proper pair, or else has a bad digit, in which case it reads as U+0000; what it spells is what is emitted |
| JsonUnicode.ContinuationByte | components/packages/cJSON-latest/cJSON.c:748-753 | The mask and the mark that EmitUtf8 computes with put the low six bits behind the mark |
| JsonUnicode.LeadByte | components/packages/cJSON-latest/cJSON.c:754-762 | The first byte that EmitUtf8 computes is the length mark and what is left of the code point |
| JsonUnicode.JoinBits | components/packages/cJSON-latest/cJSON.c:706-707 | The bit formula that Utf16LiteralToUtf8 joins a pair with is the arithmetic of section 2.2 of RFC 2781 |
| JsonPrinter.PrintPreallocated | components/packages/cJSON-latest/cJSON.c:1292-1309 | Printing into a given buffer succeeds if and only if its length is at least the text and two more; on success it holds that text; no write falls outside |
| JsonPrinter.PrintBuffered | components/packages/cJSON-latest/cJSON.c:1262-1290 | Any prebuffer of at least 1 gives the same text |
| JsonPrinter.Print | components/packages/cJSON-latest/cJSON.c:1187-1249 | The same text again, in a buffer of its exact size |
| JsonPrinter.PrintBuffer.Ensure | components/packages/cJSON-latest/cJSON.c:439-522 | Room is there afterwards exactly if the limit allows it, and what was written is kept |
| JsonPrinter.PrintBuffer.UpdateOffset | components/packages/cJSON-latest/cJSON.c:525-535 | The offset moves to the end of what was written |
| JsonPrinter.PrintBuffer.PrintValue | components/packages/cJSON-latest/cJSON.c:1367-1438 | Every value prints its text, or fails exactly when text and two characters exceed the limit |
| JsonPrinter.PrintBuffer.PrintStringPtr | components/packages/cJSON-latest/cJSON.c:902-1021 | The counted length is what the escaping loop writes |
| JsonPrinter.PrintBuffer.PrintArray | components/packages/cJSON-latest/cJSON.c:1539-1598 | print_array |
| JsonPrinter.PrintBuffer.PrintElements | components/packages/cJSON-latest/cJSON.c:1562-1586 | Its loop over elements and separators |
| JsonPrinter.PrintBuffer.PrintObject | components/packages/cJSON-latest/cJSON.c:1714-1825 | print_object |
| JsonPrinter.PrintBuffer.PrintMembers | components/packages/cJSON-latest/cJSON.c:1741-1805 | Its loop |
| JsonPrinter.PrintBuffer.PrintMember | components/packages/cJSON-latest/cJSON.c:1743-1802 | One member: indentation, name, colon, value, comma, line end |
| IniRoundTrip.PutThenLookup | apps/app_hmi_board_gui/minIni/minIni.c:689-889 | After ini_puts, on any of its paths, the setting reads back if and only if it was there already, or its value is put in quotes, or has no blank at either end; for every file, with lines of any length, and well-formed names |
| IniRoundTrip.PutThenGets | apps/app_hmi_board_gui/minIni/minIni.c:317-332 | As callers see it: ini_gets returns the value cut to the caller's buffer, whatever the default |
| IniRoundTrip.PutKeepsOthers | apps/app_hmi_board_gui/minIni/minIni.c:689-889 | Every other section and key pair reads as before, or stays absent |
| IniRoundTrip.PutChangesOneLine | apps/app_hmi_board_gui/minIni/minIni.c:689-889 | Everything else in the file stays byte for byte: one line is exchanged, put in between, or put behind, with the section line and a line terminator where needed |
| IniMeaning.GetsExact | apps/app_hmi_board_gui/minIni/minIni.c:225-332 | ini_gets returns the default if and only if no line of the section belongs to the key, and otherwise the value of the first that does, cut to the buffer |
| IniMeaning.LinesAre | apps/app_hmi_board_gui/minIni/minIni.c:245-278 | The lines of a file: each ends with its first newline or fills the buffer, and nothing is lost between them |
| IniMeaning.SettingReads | apps/app_hmi_board_gui/minIni/minIni.c:225-332 | A setting as people write it, blanks around key, separator and value, a comment behind, reads as its value under every spelling of the key that differs in case only |
| IniMeaning.SettingMeans | apps/app_hmi_board_gui/minIni/minIni.c:275-285 | Such a line is a line of this key and of no other, with `=` or `:`, and opens no section |
| IniMeaning.SectionMeans | apps/app_hmi_board_gui/minIni/minIni.c:244-257 | A section line, with blanks around the bracket and the name, is one of that section in any case, and of no other |
| IniMeaning.PlainValue | apps/app_hmi_board_gui/minIni/minIni.c:192-223 | A plain value reads without the blanks around it and any comment behind it |
| IniMeaning.QuotedValue | apps/app_hmi_board_gui/minIni/minIni.c:192-223 | A value in quotes reads as what they enclose |
| IniMeaning.CommentMeans | apps/app_hmi_board_gui/minIni/minIni.c:284-285 | A comment line belongs to no key |
| IniMeaning.NoSeparatorMeans | apps/app_hmi_board_gui/minIni/minIni.c:281-285 | A line without separator belongs to no key |
| IniMeaning.CutValue | apps/app_hmi_board_gui/minIni/minIni.c:163-176 | Of a value too long for the line as much is written as fits, and no escape is torn apart |
| IniMeaning.GapMeans | apps/app_hmi_board_gui/minIni/minIni.c:780-783 | A line put at the end comes on a line of its own, and no blank line in front of it |
| IniRoundTrip.PutsIsRewrite | apps/app_hmi_board_gui/minIni/minIni.c:706-737 | Writing in place gives the very file the rewrite would have given |
| IniRoundTrip.RewriteWrites | apps/app_hmi_board_gui/minIni/minIni.c:769-889 | The rewritten file, in each of its three places to put the line and with a new section |
| IniRoundTrip.SpotIsKeySpot | apps/app_hmi_board_gui/minIni/minIni.c:269-285 | getkeystring and the rewrite agree on where the key is |
| IniText.ValueReads | apps/app_hmi_board_gui/minIni/minIni.c:146-223 | Enquoting and cleaning with dequoting are inverse, exactly for the values put in quotes and those without outer blanks |
| IniText.QuotedReads | apps/app_hmi_board_gui/minIni/minIni.c:163-223 | A quoted value reads back whatever it contains |
| IniText.DequoteEscaped | apps/app_hmi_board_gui/minIni/minIni.c:163-184 | Removing escapes undoes writing them |
| IniCopy.IniPuts | apps/app_hmi_board_gui/minIni/minIni.c:689-889 | The whole of ini_puts for a key and a value, over cursors, buffer and cache, leaves the file its specification says; for every NUL-free file and lines of any length |
| IniCopy.IniGets | apps/app_hmi_board_gui/minIni/minIni.c:317-332 | ini_gets leaves the specified text in the caller's buffer and returns its length |
| IniCopy.GetKeyString | apps/app_hmi_board_gui/minIni/minIni.c:225-305 | Found or not, the value, and the place of its line |
| IniCopy.SeekSection | apps/app_hmi_board_gui/minIni/minIni.c:239-267 | The section loop stops behind the section line |
| IniCopy.SeekKey | apps/app_hmi_board_gui/minIni/minIni.c:269-285 | The key loop stops at the key, at the next section or at the end |
| IniCopy.PendingIsExact | apps/app_hmi_board_gui/minIni/minIni.c:620-657 | Cached copying is exact: the bytes written and the bytes the cache stands for are the bytes taken over so far |
| IniCopy.CacheFlush | apps/app_hmi_board_gui/minIni/minIni.c:629-657 | The cached range is read again and written; the flag says whether it ended in a line terminator |
| IniCopy.CacheFill | apps/app_hmi_board_gui/minIni/minIni.c:635-645 | The re-reading loop reads exactly the cached range, through any mixture of short and over-long lines |
| IniCopy.CacheLine | apps/app_hmi_board_gui/minIni/minIni.c:804-810 | A line is cached, or the cache is flushed and started again with it; nothing is lost or doubled |
| IniCopy.CacheAccum | apps/app_hmi_board_gui/minIni/minIni.c:620-627 | A string that would fill the buffer is not taken |
| IniCopy.CopyToSection | apps/app_hmi_board_gui/minIni/minIni.c:775-812 | The first loop copies up to and with the section line, or the whole file |
| IniCopy.CopyToSpot | apps/app_hmi_board_gui/minIni/minIni.c:828-857 | The second loop stops at the key, at the next section, or at the end |
| IniCopy.CopyAround | apps/app_hmi_board_gui/minIni/minIni.c:863-888 | The new line, the line that stopped the search unless it is the old one, the rest |
| IniCopy.CopyRest | apps/app_hmi_board_gui/minIni/minIni.c:880-888 | The last loop copies everything that is left |
| IniCopy.RewriteFile | apps/app_hmi_board_gui/minIni/minIni.c:769-889 | The copy is the specified rewrite |
| IniCopy.FormatKey | apps/app_hmi_board_gui/minIni/minIni.c:604-615 | writekey formats the key line within the buffer |
| IniCopy.WriteSection | apps/app_hmi_board_gui/minIni/minIni.c:589-602 | writesection |
| IniStream.Stream.Read | apps/app_hmi_board_gui/minIni/minGlue.h:21 | ini_read: one line with its newline, or as much as there is room for |
| IniStream.Stream.Write | apps/app_hmi_board_gui/minIni/minGlue.h:22 | ini_write: the string over what stands at the cursor |
| IniStream.MatchSection | apps/app_hmi_board_gui/minIni/minIni.c:790-800 | A line is the section's exactly if its trimmed name is, ignoring case |
| IniStream.MatchKey | apps/app_hmi_board_gui/minIni/minIni.c:840-845 | A line is the key's exactly if the trimmed text in front of its separator is |
| IniBuffer.Strncpy | apps/app_hmi_board_gui/minIni/minIni.c:146-190 | ini_strncpy: each of the three copies leaves the specified text, within maxlen characters |
| IniBuffer.CopyEnquoted | apps/app_hmi_board_gui/minIni/minIni.c:163-176 | The enquoting loop writes no half escape |
| IniBuffer.CopyDequoted | apps/app_hmi_board_gui/minIni/minIni.c:177-184 | The dequoting loop |
| IniBuffer.CleanString | apps/app_hmi_board_gui/minIni/minIni.c:192-223 | The comment, the trailing blanks and the surrounding quotes are taken off in place |
| IniBuffer.CommentAt | apps/app_hmi_board_gui/minIni/minIni.c:200-213 | The search for a comment outside quotes |
| IniBuffer.CheckEnquote | apps/app_hmi_board_gui/minIni/minIni.c:576-586 | Quotes are asked for exactly for a quote, `;`, `#` or a trailing space |
| IniBuffer.SkipLeadingAt | apps/app_hmi_board_gui/minIni/minIni.c:121-127 | skipleading |
| IniBuffer.SkipTrailing | apps/app_hmi_board_gui/minIni/minIni.c:129-136 | skiptrailing |
| AiChat.OneAtATime | apps/app_hmi_board_gui/app/app_ai_chat.c:290-331 | With one requesting thread, any takers and any interleaving, tokens and in-flight work are at most 1, and accepted requests minus published replies are 0 or 1, whether or not the lock works |
| AiChat.OneRequesterOnly | apps/app_hmi_board_gui/app/app_ai_chat.c:290-331 | That holds of all runs if and only if there is at most one requesting thread |
| AiChat.TwoRequesters | apps/app_hmi_board_gui/app/app_ai_chat.c:316-331 | With two or more, any takers and any two prompts, there is a run in which both are accepted, two tokens are out, and the first prompt is never asked |
| AiChat.RepliesAnswer | apps/app_hmi_board_gui/app/app_ai_chat.c:338-359 | Along every run in which the lock is initialised before a second thread calls, every reply taken answers the prompt accepted last before it was taken, cut to the buffers, and is taken at most once |
| AiChat.TakeDelivers | apps/app_hmi_board_gui/app/app_ai_chat.c:338-359 | With a reply ready and the lock free, a call of ai_chat_take_reply with any buffer copies as much as fits, clears the flag and is one receipt; with none ready it changes nothing |
| AiChat.ReplyReachesTaker | apps/app_hmi_board_gui/app/app_ai_chat.c:259-359 | The reply to the prompt accepted last, as the worker publishes it, reaches the next taker |
| AiChat.PromptIsAnswered | apps/app_hmi_board_gui/app/app_ai_chat.c:259-359 | The whole round: a prompt asked while the mailbox is free comes back to the next taker as the relay answers it, cut to 255 and 767 characters and to the buffer |
| AiChat.BusyRefuses | apps/app_hmi_board_gui/app/app_ai_chat.c:317-320 | While a request is under way another is refused and changes nothing |
| AiChat.LockFirst | apps/app_hmi_board_gui/app/app_ai_chat.c:53-60 | Replies fit in every run if and only if the lock is initialised before the first call or there are no takers on other threads |
| AiChat.LateInit | apps/app_hmi_board_gui/app/app_ai_chat.c:53-60 | The failing run: a taker held up inside ai_chat_lock_init initialises the lock while the requester has it, and takes a reply that an accepted prompt has outdated |
| AiChat.OneThreadAnswers | apps/app_hmi_board_gui/app/app_ai_chat.c:53-60 | Replies fit in every run in which all calls come from one thread, as the screen makes them |
| AiChat.WorkerHasLock | apps/app_hmi_board_gui/app/app_ai_chat.c:266-274 | In no run does the worker start before the lock is initialised |
| AiChat.RunKeeps | apps/app_hmi_board_gui/app/app_ai_chat.c:259-359 | The whole invariant, mutual exclusion included, holds along every run in which the lock is initialised before a second thread calls |
| AiChat.RequesterKeeps | apps/app_hmi_board_gui/app/app_ai_chat.c:290-331 | Every step of the requesting thread keeps it |
| AiChat.WorkerKeeps | apps/app_hmi_board_gui/app/app_ai_chat.c:259-288 | Every step of the worker keeps it |
| AiChat.TakerKeeps | apps/app_hmi_board_gui/app/app_ai_chat.c:338-359 | Every step of any taking thread keeps it |
| AiChat.WorkerFinishes | apps/app_hmi_board_gui/app/app_ai_chat.c:259-288 | No wake-up is lost: once a request has returned, the worker on its own publishes the reply and frees the mailbox |
| Game2048.EveryRunIsFair | apps/app_hmi_board_gui/lvgl/user_events/events_quweidonghua.c:359-462 | Along every run tiles are powers of two, the score is what the tiles are worth less four for every four that came up, and the over flag is set exactly when no direction would change the board |
| Game2048.OverIsOver | apps/app_hmi_board_gui/lvgl/user_events/events_quweidonghua.c:267-288 | On a board with a tile, board_has_move finds a move exactly if some direction changes the board |
| Game2048.MoveWorth | apps/app_hmi_board_gui/lvgl/user_events/events_quweidonghua.c:420-449 | A move is worth exactly its score and leaves powers of two |
| Game2048.WithTileWorth | apps/app_hmi_board_gui/lvgl/user_events/events_quweidonghua.c:290-313 | A new tile is worth four times the number of fours it is |
| Game2048.ChangesIsMoved | apps/app_hmi_board_gui/lvgl/user_events/events_quweidonghua.c:430-449 | A direction changes the board exactly if one of its lines slides |
| Rules2048.Directions | apps/app_hmi_board_gui/lvgl/user_events/events_quweidonghua.c:430-449 | Button 0 slides every column to the top, 1 every row to the right, 2 every column to the bottom, 3 every row to the left |
| Rules2048.SlideTable | apps/app_hmi_board_gui/lvgl/user_events/events_quweidonghua.c:369-418 | Every line without gaps, by cases: of equal neighbours the front ones merge first, no tile merges twice, the rest closes up |
| Rules2048.GapsClose | apps/app_hmi_board_gui/lvgl/user_events/events_quweidonghua.c:375-381 | A gap makes no difference to where a line slides |
| Rules2048.NewTileMeans | apps/app_hmi_board_gui/lvgl/user_events/events_quweidonghua.c:290-313 | The new tile goes to the empty cell drawn, counted row by row, and is a four if the second draw ends in zero; a full board gets none |
| Rules2048.PressMeans | apps/app_hmi_board_gui/lvgl/user_events/events_quweidonghua.c:420-454 | If nothing slides the board stays; otherwise the slid board gets a new tile |
| Line2048.CompressLine | apps/app_hmi_board_gui/lvgl/user_events/events_quweidonghua.c:369-418 | compress_line leaves the slid line, says whether it changed, and scores its merges |
| Line2048.MergePass | apps/app_hmi_board_gui/lvgl/user_events/events_quweidonghua.c:383-392 | The pass with its skipping index merges front pairs first and no tile twice |
| Line2048.Pack | apps/app_hmi_board_gui/lvgl/user_events/events_quweidonghua.c:394-406 | Tiles move to the front in place, zeros fill the rest |
| Board2048.Board.Move | apps/app_hmi_board_gui/lvgl/user_events/events_quweidonghua.c:420-462 | game_2048_move changes board, score and flag as the game model does |
| Board2048.Board.AddTile | apps/app_hmi_board_gui/lvgl/user_events/events_quweidonghua.c:290-313 | board_add_tile sets one empty cell, chosen in row order |
| Board2048.Board.HasAnyMove | apps/app_hmi_board_gui/lvgl/user_events/events_quweidonghua.c:267-288 | board_has_move |
| Board2048.Board.Restart | apps/app_hmi_board_gui/lvgl/user_events/events_quweidonghua.c:359-367 | board_new_game |
| Snake.EveryRunIsSound | apps/app_hmi_board_gui/lvgl/user_events/events_quweidonghua.c:171-254 | Along every run body cells are distinct, on the grid and consecutively adjacent, and the score is ten times the growth |
| Snake.GuardNeverBlocks | apps/app_hmi_board_gui/lvgl/user_events/events_quweidonghua.c:237-240 | The length guard never stops growth: there is no room for a longer snake than the grid |
| Snake.NoTurningBack | apps/app_hmi_board_gui/lvgl/user_events/events_quweidonghua.c:200-212 | The next head of a live snake is never its neck |
| Snake.ButtonSteers | apps/app_hmi_board_gui/lvgl/user_events/events_quweidonghua.c:190-254 | After a direction button the next tick takes the head one cell that way, or straight on if that would be back onto the neck; the game ends if and only if that cell is off the grid or on the snake; on the food the snake grows by one and scores ten |
| Snake.StraightOn | apps/app_hmi_board_gui/lvgl/user_events/events_quweidonghua.c:200-212 | Without a new button the snake goes straight on |
| Snake.FirstMove | apps/app_hmi_board_gui/lvgl/user_events/events_quweidonghua.c:171-212 | A new game starts in the middle, going right, and each button takes the head where it should |
| Snake.FoodMoves | apps/app_hmi_board_gui/lvgl/user_events/events_quweidonghua.c:248-251 | Eaten food is put on a cell the longer snake leaves free |
| Snake.FoodIsFirst | apps/app_hmi_board_gui/lvgl/user_events/events_quweidonghua.c:107-137 | Food is put on the first free cell that is tried |
| Snake.OverStays | apps/app_hmi_board_gui/lvgl/user_events/events_quweidonghua.c:195-198 | Once the game is over only a restart changes it |
| Snake.FoodIsFree | apps/app_hmi_board_gui/lvgl/user_events/events_quweidonghua.c:107-137 | Food is put on a free cell if one of the tries hits one, and otherwise in the corner, even under the snake |
| Snake.SnakeGame.Tick | apps/app_hmi_board_gui/lvgl/user_events/events_quweidonghua.c:190-254 | snake_step does what the model's step does |
| Snake.SnakeGame.Press | apps/app_hmi_board_gui/lvgl/user_events/events_quweidonghua.c:506-524 | A direction button only sets the direction to be taken up by the next step |
| Snake.SnakeGame.Shift | apps/app_hmi_board_gui/lvgl/user_events/events_quweidonghua.c:242-246 | Every cell moves up by one behind the new head |
| Snake.SnakeGame.PutFood | apps/app_hmi_board_gui/lvgl/user_events/events_quweidonghua.c:107-137 | snake_place_food |
| Snake.SnakeGame.Restart | apps/app_hmi_board_gui/lvgl/user_events/events_quweidonghua.c:171-188 | snake_new_game |

## Left out

- Floating-point numbers, their printing and reading, cJSON_Raw, reference items and locale: numbers are integers, and strtod is a parameter that reads the text of every 32-bit integer.
- Allocation failure and hooks: allocations succeed, up to the size limits the code itself checks.
- In-place change of JSON trees by patches: apply_patch, merge_patch and compare_json work on values here, so aliasing between a document and its patch is not modelled, nor that comparing sorts both documents and leaves the first `prev` of their lists astray. ListNodes and NodeSort treat the list layer on linked nodes.
- apply_patch and detach_path have no loops of their own modelled: they are functions over values, which ApplyInOrder calls.
- The type test of a move's or copy's `from` member that is not a string: it is given status 5.
- The position of a parse error, and a prebuffer of 0.
- cJSON_Minify, the create and add helpers, and cJSON_ReplaceItemInObject: they would add easy members.
- NUL characters in INI files, which the C string functions take for the end of a line.
- ini_browse, ini_hassection, ini_getsection, ini_getkey, deleting keys and sections, the number functions, and failures to open, rename or close a file.
- The temporary file of ini_puts: its name is the file's with the last character replaced by `~`, so that a file whose name already ends in `~` is overwritten while it is copied.
- Sockets, HTTP, Wi-Fi and the relay's address in the chat worker: a reply is an arbitrary function of its number and the prompt, and creating the thread and the semaphore succeeds and happens once, where two first calls at a time could each create one.
- Drawing, timers, screen objects and switching between the games; random numbers are parameters.
- The width of int in the 2048 score and tiles, which a 4 by 4 board cannot reach.
- The other drivers, generated screens, samples and the relay script: input and output, data tables or thin wrappers.

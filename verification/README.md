# Models of libqpdf

This project models seven parts of libqpdf, the C++ library of qpdf, and proves what they are for. Each
part is modelled in the form the code has: objects are classes with the same fields, loops are loops, and
each method is proved against a function on whole values about which the lemmas then say what it means.

- **Number trees** (`NNTree*.dfy`): a tree index over PDF dictionaries, sections 7.9.6 and 7.9.7 of
  ISO 32000-1. The document is a map from ids to nodes that the operations change in place; a ghost tree
  with a zipper says what is there. Every run of insertions and removals behaves like a sorted map, and
  the limits of the nodes are always good enough for the search, although upper limits may lag behind; when
  an insertion makes them lag is stated exactly.
- **Copying between documents** (`ForeignCopier*.dfy`): two passes over a graph of objects with cycles
  and sharing, by way of an id map, stopping at pages.
- **JSON** (`JSON*.dfy`): the lexer, the parser with its stack, and the writer, which undo each other. The
  parser accepts the texts of RFC 8259 that are nested at most 500 deep and nothing else, and returns their
  values; the grammar and the values are defined apart from it. The part of the input that it records for an
  item parses alone to that item.
- **Objects from tokens** (`QPDFParser*.dfy`): one loop with a stack and a buffer of two integers, equal to
  recursive descent with lookahead on every sequence of tokens.
- **Searching a file** (`InputSource.dfy`): a search through a buffer of 1024 bytes that is refilled.
- **Page labels** (`PageLabels.dfy`): the label table of a document put together from ranges of pages.
- **Streams in pieces** (`LZW*.dfy`, `RunLength.dfy`, `AES*.dfy`, `MD5.dfy`, `PNG*.dfy`): LZW decoding, run
  lengths, block chaining with padding, message digests and row filters. Input comes in pieces of any
  size; what comes out is a function of the whole, and decoding what was encoded gives it back. What the
  formats are is stated apart from both: widths and meanings of codes, blocks and predictions by literal numbers.

`Wrappers.dfy` and `Bytes.dfy` hold an option, a result, and bytes and bits. `dafny verify dfyconfig.toml`
checks everything.

Four things were found that do not hold as one would expect. Each is proved with an input and with the
exact condition, for all inputs:

- An insertion into a number tree whose upper limits are all exact leaves them all exact unless a split
  ends at a parent that takes in the new node as its last kid without being split, is the last kid of its
  own parent, and that is not the root; then the limit of that node is left too small
  (`NNTree.NNTreeImpl.Insert` with `NNTreeTight.InsertLags`; an input in `NNTreeRuns.InsertBehind`).
  Removals leave exact limits exact, so the limits are exact after any run in which no insertion lags
  (`NNTreeRuns.Run`).
- The iterator that a failed search returns is equal to the end, but include/qpdf/QPDFNumberTreeObjectHelper.hh
  promises more of the end than it keeps: that incrementing comes to the first item and decrementing to the
  last. It does exactly if the tree has items and its root has no kids or the key is before all others.
  Otherwise the search has left the root on the path of the iterator, and moving it takes this for a loop
  (`NNTreeRuns.NextOfMissing`; an input in `NNTreeRuns.MissingStays`). An insertion after such an iterator is
  done, but the iterator does not denote the new item (`NNTreeRuns.InsertAtMissing`).
- An escaped low surrogate where a string is open and no high one waits is an error exactly if its backslash
  is not at offset 6 of the input; there it is like any other character (`JSONLoneLow.LoneLowAnywhere`; an
  input in `JSONSurrogates.LoneLowAccepted`). This is also the one thing that can make the recorded text of
  an item differ from the item (`JSONOffsets.ItemsParseAlone`; an input in `JSONSurrogates.LoneLowInside`).
- `MD5_native::update` returns exactly if the piece and what waits in the buffer are below 2^32 bytes
  together (`MD5.UpdateReturns`), and its counter is right for a piece exactly if the part of the length
  above 32 bits is a multiple of 2^29 (`MD5.CountsExactly`; inputs for both in `MD5.TooLong`).
  `Pl_MD5::write` cuts what it is given into chunks, so it may be given anything (`MD5.WriteChunks`); the
  functions of `MD5` that take a string or a buffer, libqpdf/MD5.cc:33-41, 101-108 and 134-140, do not.

The lemmas that take a map or a document carry `{:induction false}` throughout, whether they are inductive
or not, because an induction hypothesis that Dafny makes up by itself would range over maps of any type.

## Model

| member | source | states |
|---|---|---|
| NNTreeSearch.BinarySearch | libqpdf/NNTree.cc:577-607 | For any number of entries in order: only existing indices are compared, and the result is the matching index, or if asked for the greatest index that is not above the key, else -1 |
| NNTreeSearch.BracketStep | libqpdf/NNTree.cc:587-605 | One step of the power-of-two search keeps the bracket: everything beyond is above the key, and the best index so far is the left neighbour of the bracket |
| NNTreeLookup.KidsInOrder | libqpdf/NNTree.cc:619-652 | In a good tree the limits of siblings are disjoint ranges in order, although upper limits may be too small |
| NNTreeLookup.KidsSearchable | libqpdf/NNTree.cc:619-652 | So the comparisons with kids are monotone, which is what the binary search needs |
| NNTreeLookup.KidFound | libqpdf/NNTree.cc:732-743 | The kid the search returns is the one the key must be under, also if the key is in a gap or above a stale upper limit |
| NNTreeLookup.ItemFound | libqpdf/NNTree.cc:716-730 | The item found in the leaf is at or below the key in the listing of the whole tree |
| NNTreeLookup.ItemMissing | libqpdf/NNTree.cc:716-730 | A key that is not in the leaf the descent ends in is nowhere in the tree |
| NNTree.NNTreeImpl.Find | libqpdf/NNTree.cc:689-744 | The iterator is valid exactly when the key is there and denotes its pair; with the flag it denotes the greatest key not above, or is the end if there is none. One that is not valid has the path to the leaf the search ended in, which is empty if the tree is, the root is a leaf or the key is before all others |
| NNTree.NNTreeImpl.Descend | libqpdf/NNTree.cc:707-743 | The loop of findInternal reaches that item from the root |
| NNTreeLimits.ResetAttached | libqpdf/NNTree.cc:130-180 | Called on a node of the tree after a change in it, resetLimits restores the limit invariant all the way up and changes nothing else |
| NNTreeLimits.ResetOwn | libqpdf/NNTree.cc:164-180 | Called on a node with that node's own path element it refreshes this one node only, and the limit invariant still holds |
| NNTreeLimits.ResetDetached | libqpdf/NNTree.cc:130-180 | Called on a node that is not attached yet it sets that node's limits and keeps the invariant of the tree |
| NNTree.NNTreeIterator.ResetLimits | libqpdf/NNTree.cc:130-180 | The loop with its early returns computes the function that these lemmas are about |
| NNTreeTight.ResetTight | libqpdf/NNTree.cc:130-180 | Called on a node of the tree whose contents have changed, with all other upper limits exact but perhaps that of its parent, resetLimits makes all exact, provided it does not stop at the node or the parent is exact already |
| NNTreeTight.CutLowers | libqpdf/NNTree.cc:284-288 | It does not stop there when the first half of a split node is reset, because the first half ends at a smaller key |
| NNTreeTight.LevelTight | libqpdf/NNTree.cc:278-306 | One level of split makes everything exact but the parent, which is exact still if and only if the split node was not its last kid |
| NNTreeTight.OwnStageTight | libqpdf/NNTree.cc:319-322 | The reset between two levels makes the parent exact, and leaves the node around the parent exact if and only if the parent is not its last kid or needed nothing |
| NNTreeTight.NextTight | libqpdf/NNTree.cc:278-324 | So after each level the whole split ends exact if and only if the condition on what is left to split says so |
| NNTreeTight.InsertTight | libqpdf/NNTree.cc:356-359 | A leaf with one pair more and its limits reset: all upper limits are exact when the split begins |
| NNTreeTight.OneTakesIn | libqpdf/NNTree.cc:768-782 | The leaf that takes in a pair at a given index of the listing is unique, so that the condition is one on the tree and the index |
| NNTreeRuns.InsertBehind | libqpdf/NNTree.cc:319-322 | A good tree with exact limits, of which the condition says that the insertion of a certain pair leaves an upper limit behind, and which has the pair and no longer exact limits afterwards |
| NNTreeTightRemoval.ItemTight | libqpdf/NNTree.cc:375-386 | One item less in a leaf of a tree with exact limits: they are exact after the reset, and without one if an inner item went |
| NNTreeTightRemoval.StopTight | libqpdf/NNTree.cc:415-437 | The same for a node that loses an empty kid and keeps others |
| NNTreeTightRemoval.UpTight | libqpdf/NNTree.cc:415-449 | A node that loses its only kid leaves what is around it as exact as it was |
| NNTreeSplit.HalvesFit | libqpdf/NNTree.cc:281-288 | Both halves of a node that is one over the threshold have at least one and at most threshold entries, and are good subtrees of the same depth |
| NNTreeSplit.HalvesEven | libqpdf/NNTree.cc:281-288 | Where a split cuts: of a leaf the second half has as many items as the first or one more; a node with kids is cut behind an even number of them, and the second half has at most three more; together they list what the node listed |
| NNTreeSplit.ParentFits | libqpdf/NNTree.cc:290-306 | With the second half put in behind the first, the parent is good but for being perhaps one over the threshold |
| NNTreeSplit.ParentLaid | libqpdf/NNTree.cc:290-306 | The document then spells out the new parent, with all limits in order |
| NNTreeSplit.SplitLevel | libqpdf/NNTree.cc:278-325 | Splitting one level leaves the listing of the tree as it was and the level above in the state to be split in its turn |
| NNTreePosition.MoveSpotKeeps | libqpdf/NNTree.cc:307-318 | After a split the iterator's place denotes the same item of the listing |
| NNTreePosition.SplitPaths | libqpdf/NNTree.cc:307-318 | The path elements that split adjusts are those of that place |
| NNTree.NNTreeIterator.PushRoot | libqpdf/NNTree.cc:245-276 | A root over the threshold becomes the only kid of a new root of the same id, and the iterator's path grows by one element |
| NNTree.NNTreeIterator.CutNode | libqpdf/NNTree.cc:281-292 | The entries of the node are cut in half and the second half moves to a new node |
| NNTree.NNTreeIterator.SplitOnce | libqpdf/NNTree.cc:278-318 | One level of split keeps listing, limits, shape and the item denoted |
| NNTree.NNTreeIterator.Split | libqpdf/NNTree.cc:182-325 | All levels together restore the invariant with listing and item unchanged; if all limits were exact but perhaps the parent's, they end exact if and only if no split ends as described above |
| NNTree.NNTreeIterator.Deepen | libqpdf/NNTree.cc:474-543 | Going down ends at the first or last item of the subtree, with the path that leads there; it fails, leaving the iterator as it was, exactly if the node is on the path already or there is no item and that is not allowed |
| NNTree.NNTreeIterator.GetNextKid | libqpdf/NNTree.cc:76-90 | The kid beside the last path element, if there is one |
| NNTree.NNTreeIterator.Increment | libqpdf/NNTree.cc:91-128 | One step in either direction is one step in the listing, around both ends; an iterator that is not valid and has the root on its path stays as it is |
| NNTree.NNTreeIterator.EqualsIs | libqpdf/NNTree.cc:453-472 | Two iterators over one tree, each at an item, at the end or left by a failed search, are equal if and only if both denote no item or both denote the item of the same rank |
| NNTree.NNTreeIterator.InsertAfter | libqpdf/NNTree.cc:333-361 | The pair is in the listing behind the item, or first if the iterator is not valid, and the invariant holds; the iterator denotes the pair, but stays as it is if it is not valid and has the root on its path; exact upper limits stay exact if and only if the tree before does not make this insertion leave one behind |
| NNTree.NNTreeIterator.InsertInLeaf | libqpdf/NNTree.cc:356-360 | The leaf takes in the pair, its limits are reset and what is full is split: the listing gains the pair at that place, the invariant holds, and exact upper limits stay exact if and only if no split leaves one behind |
| NNTree.NNTreeIterator.SetValue | libqpdf/NNTree.cc:774-777 | Replacing a value changes that one pair of the listing |
| NNTree.NNTreeIterator.Remove | libqpdf/NNTree.cc:363-451 | The item is gone from the listing, the invariant holds, the iterator denotes the successor or is at the end, and exact upper limits stay exact |
| NNTree.NNTreeIterator.RemoveFromLeaf | libqpdf/NNTree.cc:375-401 | Removal from a leaf that keeps items |
| NNTree.NNTreeIterator.RemoveLast | libqpdf/NNTree.cc:403-407 | The last item of a root leaf leaves an empty tree |
| NNTree.NNTreeIterator.Prune | libqpdf/NNTree.cc:409-450 | An empty node is removed from its parent, and so on upwards until a node keeps kids |
| NNTreeInvariant.PruneUp | libqpdf/NNTree.cc:415-449 | A node that loses its only kid is the next to be removed |
| NNTreeInvariant.PruneRoot | libqpdf/NNTree.cc:439-446 | If all nodes go, the root becomes an empty leaf |
| NNTreeInvariant.PruneStop | libqpdf/NNTree.cc:415-437 | Where a node keeps kids the tree is good again, without a reset if an inner kid went and with one otherwise |
| NNTreeInvariant.ItemInserted | libqpdf/NNTree.cc:356-359 | One item more in a leaf and the reset of its limits: all is well but for the size of the leaf |
| NNTreeInvariant.ItemRemoved | libqpdf/NNTree.cc:375-386 | One item less: the limits need a reset only if it was the first or the last |
| NNTreeInvariant.ParentReset | libqpdf/NNTree.cc:319-324 | The call of resetLimits on the parent keeps the state between two levels of a split |
| NNTree.NNTreeImpl.NewEmpty | libqpdf/NNTree.cc:1061-1065 | An empty tree in any document, which is otherwise unchanged |
| NNTree.NNTreeImpl.Begin | libqpdf/NNTree.cc:545-551 | The first item, or an invalid iterator on an empty tree |
| NNTree.NNTreeImpl.Last | libqpdf/NNTree.cc:553-559 | The last item |
| NNTree.NNTreeImpl.InsertFirst | libqpdf/NNTree.cc:746-766 | A pair before all the others |
| NNTree.NNTreeImpl.Insert | libqpdf/NNTree.cc:768-782 | The listing is the sorted listing with the pair, in place of one with its key if there was one; the iterator denotes it; exact upper limits stay exact if and only if the key was there or the tree before does not make this insertion leave one behind |
| NNTree.NNTreeImpl.RemoveEntry | libqpdf/NNTree.cc:784-796 | The listing is without the key, and the result says whether and with which value it was there |
| NNTree.NNTreeImpl.GetAsMap | libqpdf/NNTree.cc:1237-1243 | Iterating from begin until the iterator is equal to the end lists all pairs in order, once each |
| NNTree.NNTreeImpl.HasIndex | libqpdf/NNTree.cc:1199-1204 | True exactly for the keys of the tree |
| NNTree.NNTreeImpl.FindObject | libqpdf/NNTree.cc:1206-1215 | The value of the key, or none if it is not there |
| NNTree.NNTreeImpl.FindObjectAtOrBelow | libqpdf/NNTree.cc:1217-1229 | The value of the greatest key that is not above, and how far it is below, or none if all keys are above |
| NNTreeContents.InsertSortedIsMapUpdate | libqpdf/NNTree.cc:768-782 | Insertion into a sorted listing is the update of a map and keeps the order |
| NNTreeContents.RemoveKeyIsMapRemoval | libqpdf/NNTree.cc:784-796 | Removal from a sorted listing is removal from a map and keeps the order |
| NNTreeContents.InsertSortedAt | libqpdf/NNTree.cc:771-781 | Inserting at the place where the lookup ends is inserting in order |
| NNTreeRuns.Run | libqpdf/NNTree.cc:746-796 | Over every run of insert and remove from an empty tree, listing by iteration gives exactly the sorted map with the same history, and the invariant holds; if no insertion of the run leaves an upper limit behind, all upper limits are exact |
| NNTreeRuns.NextOfMissing | include/qpdf/QPDFNumberTreeObjectHelper.hh:158-160 | The iterator found for a key that is not there is equal to the end, and moving it comes to the first or last item if and only if there are items and the root has no kids or the key is before all others |
| NNTreeRuns.InsertAtMissing | include/qpdf/QPDFNumberTreeObjectHelper.hh:136-144 | An insertion after such an iterator puts the pair first, and the iterator denotes it if and only if the tree was empty or the root had no kids or the key was before all others |
| NNTreeRuns.MissingStays | libqpdf/NNTree.cc:91-98 | A tree with three items and a key for which the iterator is equal to the end and cannot be moved to an item |
| NNTreeRuns.WellFormed | libqpdf/NNTree.cc:130-324 | What the invariant says of each node: one depth, no empty node, at most threshold entries, keys increasing, lower limit the least key, upper limit between the least and the greatest key, none at the root |
| NNTreeRuns.RunBoth | libqpdf/NNTree.cc:746-796 | Two runs, with any operations and thresholds, list the same exactly if they have the same effect on a map |
| ForeignCopierModel.ImageMirrors | libqpdf/QPDF.cc:563-615 | If all that an object refers to has a place in the id map, its image has the same shape with every reference sent through the map, null keys dropped and the page tree made null; and that stays so however the map grows |
| ForeignCopierModel.DroppedAsNull | libqpdf/QPDF.cc:591-599 | A dictionary loses exactly the keys whose values are null or lead into the page tree |
| ForeignCopierPages.TypesAgree | libqpdf/QPDFObjectHandle.cc:2281-2301 | Pages and page tree nodes are the dictionaries that have the name /Page or /Pages for the key /Type, directly or by a reference |
| ForeignCopier.Copier.ReserveObjects | libqpdf/QPDF.cc:515-561 | Terminates on cycles; makes places for the object and everything it reaches without going through a page, for nothing else; what is to be copied are the new objects that are not pages, and all they refer to has places; the set of objects being visited is as before |
| ForeignCopier.Copier.NewObject | libqpdf/QPDF.cc:536-538 | A new id, with an empty stream or a null |
| ForeignCopier.Copier.ReplaceReserved | libqpdf/QPDF.cc:494-500 | Is only ever called on an object that is null, so its error cannot arise |
| ForeignCopier.Copier.CopyReserved | libqpdf/QPDF.cc:493-501 | Fills every place with the image of its object |
| ForeignCopier.Copier.Copied | libqpdf/QPDF.cc:445-513 | The object has its copy unless it is of the page tree; every copy and every local object stays as it was but for a page that was null; new places are for reached objects only and pages among them are null; a second call changes nothing |
| ForeignCopier.SecondPass | libqpdf/QPDF.cc:493-501 | After a call every mapped object is copied or is a page that waits |
| ForeignCopierRuns.CopiesMirror | libqpdf/QPDF.cc:445-615 | Every copy ever made is right by the one id map as it is now |
| ForeignCopierRuns.SharingKept | libqpdf/QPDF.cc:445-615 | Sharing is kept: two paths through the copies end in the same copied object exactly if they end in the same object of the original |
| ForeignCopierRuns.SamePaths | libqpdf/QPDF.cc:445-615 | Any path of keys, indices and references leads to corresponding things in the original and in the copy, through cycles too |
| ForeignCopierRuns.CopyEach | libqpdf/QPDF.cc:445-513 | After any sequence of calls all that was asked for is copied and all references handed out are to it, also for pages that were null at first |
| ForeignCopierPages.CopyUpToPages | libqpdf/QPDF.cc:515-561 | After any calls, by the raw entries for /Type: pages that nobody asked for are null in the copy, what is reached only through them has no place, nodes of the page tree never have one, and all else that has a place is copied |
| JSONModel.EncodeString | libqpdf/JSON.cc:218-275 | The two loops, with and without escapes, encode character by character |
| JSONModel.AddMemberValid | libqpdf/JSON.cc:283-291 | Everything built with addDictionaryMember has encoded, distinct keys in order |
| JSONModel.PutSorted | libqpdf/JSON.cc:286-287 | Setting a member keeps the order, replaces the value of that key and no other |
| JSONModel.LessIs | include/qpdf/JSON.hh:321 | The order of keys is that of their first different byte, a proper prefix before the longer key |
| JSONModel.WriteJson | libqpdf/JSON.cc:103-134 | Writing appends the text of the value to the pipeline |
| JSONModel.Unparse | libqpdf/JSON.cc:206-216 | The text of a whole value |
| JSONWritten.Written | libqpdf/JSON.cc:103-216 | The text of any value is a text of section 2 of RFC 8259 of that value |
| JSONWritten.TextLines | libqpdf/JSON.cc:40-134 | Every item is on a line of its own, with two spaces for each container around it and a comma between items |
| JSONLiterals.Utf8Decodes | libqpdf/QUtil.cc:1003-1045 | What is written for any code point, read by the lead and continuation bytes of section 3 of RFC 3629, is that code point, in as few bytes as it needs |
| JSONLiterals.SaidIsMeant | libqpdf/JSON.cc:668-700 | The bytes of a part of a string literal, however it is spelled, are the code point that it means in UTF-8 |
| JSONLiterals.LiteralRead | libqpdf/JSON.cc:1015-1085 | Every string literal of section 7 of RFC 8259, with any escapes, hexadecimal digits of either case and surrogate pairs, is one token with the bytes that it means |
| JSONLiterals.LiteralParsed | libqpdf/JSON.cc:1015-1085 | So a text that is one string is parsed to these bytes |
| JSONGrammar.TextRead | libqpdf/JSON.cc:1115-1331 | Every text of RFC 8259, in any spelling and with any blanks, is parsed to its value if it is nested at most 500 deep, and else is an error |
| JSONSound.Decides | libqpdf/JSON.cc:805-1331 | For every input that has no escaped low surrogate without a high one: the parser returns a value if and only if the input is a text of RFC 8259 of that value, nested at most 500 deep |
| JSONLoneLow.LoneLowAnywhere | libqpdf/JSON.cc:687-697 | After any text that leaves a string open with no high surrogate waiting, in a key or a value, nested and spelled in any way, and before any other text: with the escape of a low surrogate the whole is parsed if and only if the backslash is at offset 6 and the whole is parsed with another escape in its place |
| JSONSurrogates.LoneLowSurrogate | libqpdf/JSON.cc:687-697 | Of a text that is one string, its characters encoded as the writer does, the same with what is made of it: the string with a supplementary character if the backslash is at offset 6 |
| JSONSurrogates.LoneLowAccepted | libqpdf/JSON.cc:689-693 | A text that is parsed, and is an error with a blank in front |
| JSONSurrogates.LoneLowInside | libqpdf/JSON.cc:1235-1236 | A text that is parsed and has a recorded item whose own part of the text is an error |
| JSONParser.HandleKeeps | libqpdf/JSON.cc:1115-1313 | Every token keeps the stack empty only at the top, at most 500 deep, its bottom returning to the end and every other frame to the state after an item of the container beneath, and the state in agreement with the innermost container |
| JSONParser.RunKeeps | libqpdf/JSON.cc:1315-1331 | So does every input |
| JSONParser.CloseKeeps | libqpdf/JSON.cc:1161-1196 | The frames that closing a container needs are there |
| JSONParser.JSONParser.GetToken | libqpdf/JSON.cc:805-1113 | The loop over characters yields the token that the lexer function gives for what is left of the input, and records where an item's token starts |
| JSONParser.JSONParser.HandleToken | libqpdf/JSON.cc:1115-1313 | Updates state and stack as the transition function says, keeps them well formed, and gives every item that is complete its start and end |
| JSONParser.JSONParser.Parse | libqpdf/JSON.cc:1315-1331 | The result is that of the whole text, and the items recorded are those that the lemmas below speak of |
| JSONOffsets.TokenMoved | libqpdf/JSON.cc:805-1113 | A token is the same token at any smaller offset, unless it has a low surrogate with no high one, which is an error elsewhere |
| JSONOffsets.TokenCut | libqpdf/JSON.cc:805-1113 | A token stays the same if the input is cut off anywhere after it |
| JSONOffsets.HandleInner | libqpdf/JSON.cc:1115-1313 | A parser that begins with an item inside does with every token what the outer parser does, until the item ends |
| JSONOffsets.ItemsParseAlone | libqpdf/JSON.cc:1235-1236 | The text from the start to the end recorded for any item parses to that item, or, exactly if it is not at the beginning of the input and has a low surrogate with no high one, to an error; such surrogates are let through at offset 6 only |
| JSONOffsets.AllItemsParseAlone | libqpdf/JSON.cc:1161-1196 | So in an input with no such surrogate every recorded text parses alone to its item |
| JSONRanges.ItemsTrimmed | libqpdf/JSON.cc:1235-1236 | The start of an item is at its first character and its end behind its last one, with no white space between |
| JSONOffsets.ResultRecorded | libqpdf/JSON.cc:1235-1284 | The result and every value within it is among the items recorded |
| JSONRoundTrip.LexEncoded | libqpdf/JSON.cc:1015-1085 | Reading an encoded string gives back any string of bytes |
| JSONRoundTrip.LexNumberText | libqpdf/JSON.cc:902-1006 | Every number of section 6 of RFC 8259 is one token with that text |
| JSONRoundTrip.Reads | libqpdf/JSON.cc:1115-1313 | In every state where a value can stand, the text of a value leads to the state after it with the value in its place, or to an error if that would nest too deep |
| JSONRoundTrip.RoundTrip | libqpdf/JSON.cc:103-135 | Parsing the text of any value gives the value back exactly if it is nested at most 500 deep, and an error otherwise |
| JSONRoundTrip.WriteAndParse | libqpdf/JSON.cc:1333-1346 | The same of the writer and the parser as programs |
| QPDFParserModel.StackDescends | libqpdf/QPDFParser.cc:280-532 | For every sequence of tokens, wrong ones included, the stack does what recursive descent does |
| QPDFParserModel.WithKeysKeeps | libqpdf/QPDFParser.cc:616-640 | Objects without keys all get fresh keys, and no entry is lost |
| QPDFParserRepairs.ArrayTaken | libqpdf/QPDFParser.cc:344-530 | What an array is, with words, braces and misplaced brackets among its elements |
| QPDFParserRepairs.DictTaken | libqpdf/QPDFParser.cc:386-434 | What a dictionary has, with objects where keys should stand and perhaps a key without a value at its end: the entries with keys, null for the last one, and the other objects under new keys unless parsing is strict |
| QPDFParserRepairs.ReferenceIs | libqpdf/QPDFParser.cc:310-331 | Which pairs of integers are references, by the bounds of both |
| QPDFParserRepairs.FakeKeyIs | libqpdf/QPDFParser.cc:616-640 | The keys made up are /QPDFFake with the decimal digits of a number |
| QPDFParser.Parser.BufferAnother | libqpdf/QPDFParser.cc:300-308 | A third integer pushes out the oldest of the two, which is no part of a reference |
| QPDFParser.Parser.TakeReference | libqpdf/QPDFParser.cc:310-331 | The last two integers and an R are one reference, or null if out of bounds |
| QPDFParser.Parser.FlushInts | libqpdf/QPDFParser.cc:333-341 | Integers that turn out to be integers come in their order |
| QPDFParser.Parser.TakeToken | libqpdf/QPDFParser.cc:344-530 | Every type of token has the effect that it has with unlimited lookahead |
| QPDFParser.Parser.ParseRemainder | libqpdf/QPDFParser.cc:280-532 | The loop with its two-slot buffer computes what the stack does on tokens grouped with lookahead |
| QPDFParser.Parser.ParseContainer | libqpdf/QPDFParser.cc:206-213 | So the parser is recursive descent |
| QPDFParser.Parser.FixMissingKeys | libqpdf/QPDFParser.cc:616-640 | The search for a free key ends, at the first one |
| QPDFParserTrees.GroupTree | libqpdf/QPDFParser.cc:297-342 | In the tokens of any tree of objects every reference is found and every other integer stays an integer, in order |
| QPDFParserTrees.ParsesTree | libqpdf/QPDFParser.cc:280-532 | The tokens of an array or dictionary give its value and nothing behind it is read |
| QPDFParser.ReadTree | libqpdf/QPDFParser.cc:280-532 | The same of the parser as a program |
| InputSource.NaiveChecks | libqpdf/InputSource.cc:66-72 | A naive search checks exactly the occurrences in range, in increasing order, up to the first that is accepted, and succeeds exactly if one is |
| InputSource.SearchedAre | libqpdf/InputSource.cc:63-161 | All occurrences in the range up to the first that is accepted are checked, in order, and nothing else |
| InputSource.InputSource.FindFirst | libqpdf/InputSource.cc:63-161 | Searching through the buffer makes the same checks with the same result, and ends |
| InputSource.InputSource.Read | libqpdf/InputSource.cc:105-112 | A read is short only at the end of the file |
| PageLabels.GetLabelsForPageRange | libqpdf/QPDFPageLabelDocumentHelper.cc:76-123 | The table stays in order, gives every page of the range the label it had or else its new number, and leaves earlier pages their labels, also when the first entry is left out |
| PageLabels.LabelOf | libqpdf/QPDFPageLabelDocumentHelper.cc:49-73 | By the entries of the table: the last one that is not behind the page gives style and prefix and is counted on from, beginning with its number or else with 1 |
| PageLabels.WantedPlain | libqpdf/QPDFPageLabelDocumentHelper.cc:82-88 | Pages that no entry is for are to be numbered by their new places, from 1 |
| PageLabels.SkippedFirst | libqpdf/QPDFPageLabelDocumentHelper.cc:93-109 | An entry found redundant would have given what the entry before gives |
| PageLabels.WantedNext | libqpdf/QPDFPageLabelDocumentHelper.cc:116-122 | A page without an entry of its own is numbered on from the page before |
| PageLabels.LabelAtAppend | libqpdf/QPDFPageLabelDocumentHelper.cc:49-73 | What one entry more does to the label of every page |
| PageLabels.LabelsForRanges | libqpdf/QPDFPageLabelDocumentHelper.cc:76-123 | However a document is put together from ranges, each of its pages has the label it is to have |
| LZWModel.FollowsStep | libqpdf/Pl_LZWDecoder.cc:124-183 | The decoder's table is the encoder's one entry behind: any code an encoder may send writes its string, also that of the entry still missing |
| LZWModel.DecodesWhatIsSent | libqpdf/Pl_LZWDecoder.cc:124-183 | Whatever sequence of codes an encoder sends for some data decodes to these data |
| LZWModel.GreedySends | libqpdf/Pl_LZWDecoder.cc:124-183 | The greedy encoder that clears in time is such an encoder |
| LZWModel.LongestIsLongest | libqpdf/Pl_LZWDecoder.cc:124-183 | It does send the longest string of its table |
| LZWModel.RoundTrip | libqpdf/Pl_LZWDecoder.cc:124-183 | The codes of any data give back the data, whatever follows the end-of-data code |
| LZWDecoder.DrainInPieces | libqpdf/Pl_LZWDecoder.cc:18-31 | Cutting codes off the bits in pieces or at once is the same |
| LZWDecoder.SizedStep | libqpdf/Pl_LZWDecoder.cc:160-166 | The code size is a function of the number of entries, from 9 to 12 |
| LZWDecoder.CutCode | libqpdf/Pl_LZWDecoder.cc:39-66 | The masks and shifts over three bytes take the next bits, most significant first |
| LZWDecoder.CutRest | libqpdf/Pl_LZWDecoder.cc:62-74 | What they leave begins at the new position |
| LZWDecoder.LZWDecoder.TakeIn | libqpdf/Pl_LZWDecoder.cc:21-26 | A byte goes where it overwrites no unread bit of the ring |
| LZWDecoder.LZWDecoder.NextCode | libqpdf/Pl_LZWDecoder.cc:39-74 | The code is the value of the first bits that are unread, and these are gone from the ring |
| LZWDecoder.LZWDecoder.HandleCode | libqpdf/Pl_LZWDecoder.cc:124-183 | Table, code size, output and errors are those of the model decoder |
| LZWDecoder.LZWDecoder.AddToTable | libqpdf/Pl_LZWDecoder.cc:94-122 | One entry more, or an error |
| LZWDecoder.LZWDecoder.Write | libqpdf/Pl_LZWDecoder.cc:18-31 | For any piece, the decoder goes where cutting codes off all bits so far leads |
| LZWFormat.WidthIs | libqpdf/Pl_LZWDecoder.cc:160-166 | The number of bits of a code by the number of codes since the last clear code, one more with early change: 9 below 255, 10 below 767, 11 below 1791, else 12 |
| LZWFormat.DrainReads | libqpdf/Pl_LZWDecoder.cc:18-183 | Cutting off codes and handling them gives what section 7.4.4 of ISO 32000-1 says of the bits, where a code means what the codes since the last clear code say, without a table |
| LZWFormat.DecodeAll | libqpdf/Pl_LZWDecoder.cc:18-183 | Any bytes in any pieces: the decoder fails exactly if they are not of that format, and else writes what they stand for |
| LZWStream.WidthsAgree | libqpdf/Pl_LZWDecoder.cc:160-166 | Decoder and encoder use the same code size at every code, with early change and without |
| LZWStream.StreamRoundTrip | libqpdf/Pl_LZWDecoder.cc:18-183 | Any bytes that begin with the codes of the greedy encoder in these sizes decode to the data, whatever follows |
| LZWStream.PackBytesBits | libqpdf/Pl_LZWDecoder.cc:39-66 | Packing bits into bytes loses none of them and adds only padding |
| LZWStream.RoundTrip | libqpdf/Pl_LZWDecoder.cc:18-183 | Any data, encoded into a stream of bytes with anything after it and written to the decoder in any pieces, come out of it |
| RunLength.DecodeCodes | libqpdf/Pl_RunLength.cc:88-125 | The codes of any blocks decode to what the blocks contain |
| RunLength.DecodeFormat | libqpdf/Pl_RunLength.cc:88-125 | Section 7.4.5 of ISO 32000-1: a byte n below 128 copies the next n + 1 bytes, one above 128 repeats the next byte 257 - n times |
| RunLength.RunLengthEncoder.EncodeByte | libqpdf/Pl_RunLength.cc:56-86 | The assertion on state and length holds; blocks passed on and the buffer stand for all the input |
| RunLength.RunLengthEncoder.FlushEncode | libqpdf/Pl_RunLength.cc:127-155 | The buffer goes out as one proper block, whose length byte is not 128 |
| RunLength.RunLengthEncoder.Finish | libqpdf/Pl_RunLength.cc:157-174 | The output is blocks and an end marker, decodes to the input, and three times its length is at most four times that of the input and 6 |
| RunLength.RunLengthDecoder.Write | libqpdf/Pl_RunLength.cc:88-125 | Decoding in pieces is decoding the whole |
| RunLength.RoundTrip | libqpdf/Pl_RunLength.cc:56-174 | Any pieces on both sides: decoding inverts encoding |
| AESModel.DecryptsBack | libqpdf/AES_PDF_native.cc:35-57 | Decrypting inverts encrypting, with chaining and without, for any cipher that can be inverted |
| AESModel.XorDiffers | libqpdf/AES_PDF_native.cc:41-52 | A bit of two bytes combined is set exactly if it is set in one of them only |
| AESModel.EncryptedBlock | libqpdf/AES_PDF_native.cc:37-46 | Section 7.6.2 of ISO 32000-1: any block of the output is the cipher of that block of the data, combined bit by bit with the block of the output before, or with the vector for the first |
| AESModel.DecryptedBlock | libqpdf/AES_PDF_native.cc:47-55 | Any block of the output is that block of the data deciphered, combined with the block of the data before or with the vector |
| AESModel.VectorFirst | libqpdf/Pl_AES_PDF.cc:135-165 | The vector, where one is written, is the first block |
| AESModel.StrippedIs | libqpdf/Pl_AES_PDF.cc:167-189 | Padding goes exactly if the last byte is a number n from 1 to 16 and all of the last n bytes are that number |
| AESModel.StripsPadding | libqpdf/Pl_AES_PDF.cc:84-105 | What looks like padding on a padded stream is the padding |
| AESModel.RoundTrip | libqpdf/Pl_AES_PDF.cc:63-189 | Any stream and any vector: decrypting gives the stream back, and with a vector written the length is 16 times two more than the full blocks |
| AESPipeline.AESPipe.ProcessBlock | libqpdf/AES_PDF_native.cc:35-57 | The buffers changed in place hold the block and what the next is chained to |
| AESPipeline.AESPipe.StartStream | libqpdf/Pl_AES_PDF.cc:135-165 | The vector is written, agreed on or taken from the first block |
| AESPipeline.AESPipe.Flush | libqpdf/Pl_AES_PDF.cc:130-189 | The output is that of the blocks so far, stripped of padding at the end |
| AESPipeline.AESPipe.Write | libqpdf/Pl_AES_PDF.cc:63-81 | Any piece: the state is that of all the input |
| AESPipeline.AESPipe.Finish | libqpdf/Pl_AES_PDF.cc:83-111 | The output is the whole stream encrypted or decrypted, padded or not, filled up with zeros if it should not end with a block |
| AESPipeline.Roundtrip | libqpdf/Pl_AES_PDF.cc:63-189 | Any pieces on both sides, any vector: what is decrypted is what was encrypted |
| MD5.CountsOn | libqpdf/MD5_native.cc:129-132 | The two words count eight bits a byte modulo 2^64, carry included |
| MD5.CountsExactly | libqpdf/MD5_native.cc:129-132 | For a piece of any length and any counter: the counter is right afterwards if and only if what is cut off the length is a multiple of 2^64 bits |
| MD5.TurnsAre | libqpdf/MD5_native.cc:139-148 | The 32-bit index after any number of turns of the loop, and what the loop compares with the length, in closed form |
| MD5.UpdateReturns | libqpdf/MD5_native.cc:139-148 | The loop ends if and only if the piece and what waits in the buffer are below 2^32 bytes together; else its test with a 32-bit index never fails |
| MD5.TooLong | libqpdf/MD5_native.cc:129-148 | A piece of 2^32 bytes for which the test of the loop never fails and whose bits are not counted; one byte less is too long if a byte waits in the buffer |
| MD5.CountsIndex | libqpdf/MD5_native.cc:125-126 | The place in the buffer is the length modulo 64 |
| MD5.CounterBytes | libqpdf/MD5_native.cc:291-301 | The counter is appended as a little-endian number of 64 bits |
| MD5.PaddedBlocked | libqpdf/MD5_native.cc:167-176 | A padded message has whole blocks, with the length in the last eight bytes |
| MD5.MD5Native.Update | libqpdf/MD5_native.cc:121-153 | Any piece for which update returns: all whole blocks are folded, the rest is in the buffer, the bits are counted |
| MD5.WriteChunks | libqpdf/MD5.cc:169-192 | Any data of any length: cut into chunks they are added to the message |
| MD5.MD5Native.Finalize | libqpdf/MD5_native.cc:157-187 | The digest is that of the blocks of the padded message |
| MD5.DigestOf | libqpdf/MD5_native.cc:121-187 | However a message is cut into pieces, its digest is that of the whole |
| MD5.PaddedForm | libqpdf/MD5_native.cc:157-187 | A padded message is the message, a byte 0x80, as few zeros as make whole blocks, and the number of its bits as a number of 64 bits |
| MD5.DigestKept | libqpdf/MD5_native.cc:101-115 | With a transformation that keeps the state the digest is these sixteen bytes, for every message |
| PNGModel.PaethIsNearest | libqpdf/Pl_PNGFilter.cc:207-222 | The predictor chooses the neighbour nearest to a + b - c, and of those that are equally near a before b before c |
| PNGModel.UndoneIs | libqpdf/Pl_PNGFilter.cc:137-205 | What undoing a filter adds to every byte, by the number of the filter: the byte of the pixel before, the one above, half their sum rounded down, or the nearest of three, modulo 256 |
| PNGModel.SubSums | libqpdf/Pl_PNGFilter.cc:137-152 | Undoing the first filter sums up the bytes of the pixels so far modulo 256 |
| PNGModel.UpSums | libqpdf/Pl_PNGFilter.cc:154-164 | Undoing the second in any number of rows sums up the columns modulo 256 |
| PNGModel.FilterUndone | libqpdf/Pl_PNGFilter.cc:137-205 | Undoing any filter gives back the row |
| PNGModel.RowsRecovered | libqpdf/Pl_PNGFilter.cc:108-135 | Any rows and any choice of filters: decoding recovers the rows |
| PNGFilter.PNGFilter.DecodeInPlace | libqpdf/Pl_PNGFilter.cc:137-205 | The four loops undo their filters within the row's own buffer |
| PNGFilter.PNGFilter.DecodeRow | libqpdf/Pl_PNGFilter.cc:108-135 | With a row above the filter is undone; after a finish there is none, and the row goes out as it is |
| PNGFilter.PNGFilter.EncodeRow | libqpdf/Pl_PNGFilter.cc:224-238 | A row filtered by the one above |
| PNGFilter.PNGFilter.Write | libqpdf/Pl_PNGFilter.cc:71-96 | Any piece: the output is that of all complete rows, the row above is in the other buffer and the rest of the current one is zero |
| PNGFilter.PNGFilter.Finish | libqpdf/Pl_PNGFilter.cc:240-253 | A last row that is not complete is processed as filled up with zeros |
| PNGFilter.RoundTrip | libqpdf/Pl_PNGFilter.cc:71-253 | Any pieces on both sides: decoding what was encoded gives the input filled up with zeros to whole rows |

## Left out

- Number trees: string keys (name trees compare them as text, nothing else differs), documents that are damaged, with the warnings, retries and `repair`, kids and items that are skipped because they are invalid, iterators that another iterator's change makes stale, and roots that are not indirect objects. Split thresholds below 3.
- ForeignCopier.Copier.Copied: objects with a direct dictionary of type /Pages within them, which the first pass does not look into and the second does; for these the copy is the image by the map of its time, and `ForeignCopierRuns.CopiesMirror` says nothing. The repair of /Type in the page tree, which the code makes before it looks at it. References to objects that are not there are references to null objects. Running out of object ids, and stream data other than as a payload.
- JSONParser.JSONParser.HandleToken: the code adds a container to its parent when it opens and fills it in afterwards through a shared reference; the model adds it when it closes, with the key kept in the frame. The start and end that the code keeps in each value are kept beside them, in a list of the items in the order in which they end. Reactors and blobs are not modelled, and the input is not read through a buffer.
- QPDFParser.Parser.ParseRemainder: content streams, decryption, the limits on nesting, size and errors, signature contents, descriptions and warnings, integers that do not fit in 64 bits, and first tokens that are not an opening bracket.
- InputSource.InputSource.FindFirst: findLast and read_line, and start strings with null characters, which are C strings in the code.
- PageLabels.GetLabelsForPageRange: overflow of page numbers, and ranges of several pages of a document without labels, which the code does not provide for.
- LZWDecoder.LZWDecoder.Write: the state after an error, which ends the stream.
- RunLength.RunLengthDecoder.Write: the memory limit.
- AESPipeline.AESPipe.InitializeVector: where random bytes come from, and key set-up; the block cipher is a parameter.
- MD5.MD5Native.Update: pieces for which the loop of update does not end; the transformation of a block is a parameter, and what follows a second finalize.
- PNGFilter.PNGFilter.Write: the computation of the row length from columns, samples and bits, and the memory limit.
- Memory, exceptions other than as results, logging, zlib, JPEG, the smaller codecs, and everything else in the library.

# Verified model of the XML editor, the JSON pair and the small stateful structures

This project models the parts of the server's code that keep two pieces of state in step, or
undo one another, and proves that they do. Each module follows one source file or a part of one.

**The XML editor `CMarkupSTL`** (modules `Markup*`) keeps a document text beside an index of
slots: parent, first child, next sibling, and four offsets per element. The class
`Markup.CMarkup` has the source's fields and methods. A ghost `forest`, the ordered tree of the
document with the text of every tag and gap, ties the two together: `Indexed` says that the text
is the text of the tree, and that the linked slots are the tree with the places of its tags.
Every edit is proved to keep that, and its contract names the exact new tree.

- `MarkupText`, `MarkupGrammar`, `MarkupScan`: tokens, nodes, the search for a tag; as functions
  on the rest of the text, and as the source's loops over offsets.
- `MarkupTree`: the tree, its text, its offsets; a hole in it (`Ctx`) for the place of an edit.
- `MarkupAdjust`: `x_Adjust` as a walk, the visits it makes, and which offsets that moves.
- `MarkupEdits`, `MarkupSplice`, `MarkupPlaces`, `MarkupAdd`: what an edit does to the offsets,
  to the text, and where a new element goes.
- `MarkupTags`, `MarkupAttribs`, `MarkupEntities`, `MarkupValid`: attributes, escaping, CDATA
  (section 4.6 of XML 1.0 for the entities), and why the parser reads what an edit writes.
- `MarkupParse`, `MarkupBuild`: the recursive parser, what it reads, when it does not end.
- `MarkupLaws`: get after set, remove after set, and the index against a new parse; `MarkupKept`:
  what an edit writes, character by character, and what it leaves alone.
- `MarkupNodes`, `MarkupTexts`: where nodes and tags end, which texts are refused, what is read as
  data and as attributes, on the characters themselves.
- `Base64`, `Base64Decode`: section 4 of RFC 4648 in lines of 64 characters (section 4.3.2.4 of
  RFC 1421).

**The JSON reader and writers** (modules `Json*`). `JsonReader.Reader` is the recursive parser
over a cursor, an explicit stack of nodes (here: paths into the root value) and a list of errors,
with its recovery. `JsonWriter.FastWriter` and `StyledWriter` append to their documents, the
latter with the shared scratch list. `JsonParse` and `JsonPrint` hold the functions they are
proved against, `JsonRoundTrip` the round trips, `JsonValue` the order on values. `JsonGrammar` is
the language of the reader as a grammar with a meaning of its own (RFC 8259, and where the reader
takes more), `JsonLayout` the texts of the writers to the character.

**The small structures.** `Keydic` (trie of heap nodes; `KeydicSpec` for any sequence of
additions), `Memcheck` (hash chains and free list; `MemcheckBook` for any run of calls),
`RawCache`, `BatchAllocator`, `List`, and `Clock`, a state machine of one writer and any number
of readers in which every access to a shared field is one step.

## What the proofs found

Where the code does not do what its callers would expect, the code is modelled as it is, and the
exact condition is proved.

- `SetDoc` does not always return: at a `<` followed by white space and then `?` or `!`,
  `x_FindToken` sees a node to be ignored, but `x_ParseNode`, which does not skip white space,
  takes it for an element and does not move on. It fails to return exactly on the texts that are
  well formed up to such a place before the root element or in it (`MarkupParse.DocHangs`, with
  `RoundStays`, `SearchIsEndless` and `KidsHang` for the loops, and `EndlessText` for an input).
- `InsertElem` without a root puts the element at offset 1 of a text that is there already; that
  keeps the document well formed exactly if the text does not begin with `<`
  (`MarkupAdd.InsertRoot`), and in an empty document it is behind the end (`InsertRootOffset`).
- An empty element can be given data or a child exactly if its tag does not end in `//>` and its
  name is not a single `>`; otherwise the document is read back as another one
  (`MarkupValid.OpenTagValid` for the tag, `MarkupLaws.SplitIsReadBack` for the document,
  `SlashStays` for an input).
- A quote between a removed element and the next one is taken for white space and lost
  (`MarkupPlaces.SkipsBlanks`, `MarkupKept.QuoteGoes`).
- In a document type a bracket counts only at the start of a word (`MarkupNodes.BracketInWord`), and
  an end tag may stop short of a `[` in the name (`MarkupTexts.CloseIs`).
- `x_FindAttrib` does not ask for the `=`: the value is the quoted text two places behind the name
  (`MarkupTexts.AttribIs`).
- A printed integer is read back as an integer exactly from -2147483639 to 4294967289; beyond
  that `decodeNumber` makes it a double (`JsonLex.IntReads`, `UIntReads`). What both writers
  print is the same tokens for every value, and is read alike (`JsonPrint.StyledMeansFast`).
- What `Reader` reads is what was written up to small unsigned numbers, which come back signed,
  and holes in arrays, which come back as null (`JsonRoundTrip.NormalIsSame`).
- The reader takes exactly the documents of `JsonGrammar.Accepts`. Beyond RFC 8259 that is a comma
  behind the last member if its name is empty (`TrailingComma`), numbers in any order of their
  characters, a `-` for 0 (`NumberReads`), and comments.
- An int is less than every unsigned one, whatever the numbers (`JsonValue.SignedFirst`).
- A comment in front of the comma after a member of an object makes any token behind it pass for
  the comma (`JsonReader.Reader.ReadComma`).
- `keydic.h` says nothing of characters outside the alphabet: a key is cut there in the normal
  tree and left out of the other, and may then keep a later key's element out of the latter
  (`KeydicSpec.BothHold`, `FoldedIsFirst` for the exact condition, `CutKeyShadows`). The alphabet array is two characters longer than its
  initializer, so the NUL stands in it three times.
- The ledger stays the map of live blocks exactly as long as no `realloc` to size 0 frees a block
  and answers NULL (`MemcheckBook.BookedIsLive`).
- In `BatchAllocator` the current batch is always the first one and all others are full, so the
  search for a batch with room never finds one (`Allocator.FindBatch`). Its test for a full batch
  is met exactly if the block size divides the page size (`FullIsMet`); otherwise blocks are cut
  off the first page for ever. As a page has memory for `objectsPerPage` blocks, not objects, that
  many are good and the next one lies outside: for 8 and 255 the 256th (`FirstOutside`,
  `NeverFull`, `Allocator.RoomUnlessUsed`).
- A round of `get_timeofday` gets a whole snapshot of the shared clock in every interleaving exactly
  if the writer is not between its bump and its last store when the round begins
  (`Clock.RoundIsWhole`, `CallIsWhole` for the last round of a call). For a call as a whole that
  condition is enough only if the counter is not bumped during it (`WholeIfQuiet`): any call can
  be made to start over and end with fields of two publications (`AnyCallTorn`, `Torn`).

## Conventions of the model

Strings are sequences of characters; a C string is one without NUL. Offsets and lengths are
unbounded, except in `decodeNumber`, the number printers and the counters of the clock, where
the 32-bit width is written out. `std::map` with its order is the sorted list `Entries`. A `throw`
is a result `false`. Methods named "the part of" or "the loop of" a function in a comment split a
long function of the source. Two loops of `add_key` that differ only in `tolower` are one method.

## Model

| member | source | states |
|---|---|---|
| MarkupScan.ScanToken | src/core/MarkupSTL.cpp:783-840 | x_FindToken on the whole document stops where the token function on the rest of the text does: quoted string up to its quote, special character, or plain token; false at the end |
| MarkupScan.ScanNode | src/core/MarkupSTL.cpp:949-1049 | x_ParseNode: kind of the node at a place and the offset after it, or no node |
| MarkupScan.ScanDocType | src/core/MarkupSTL.cpp:989-1012 | the loop over a document type finds the '>' that closes it, over brackets and quotes, or runs out of text |
| MarkupGrammar.FindTokenExtends | src/core/MarkupSTL.cpp:783-840 | a token that was not cut off by the end of the text reads the same whatever follows it, so an edit behind it cannot change it |
| MarkupGrammar.ScanPassesGap | src/core/MarkupSTL.cpp:662-697 | the search for a tag passes over any mix of character data, comments, instructions, CDATA sections and document types and goes on behind it |
| MarkupGrammar.StartExtends | src/core/MarkupSTL.cpp:685-698 | a start tag is found, named and ended at the same place whatever follows it |
| MarkupGrammar.CloseStopsScan | src/core/MarkupSTL.cpp:662-697 | an end tag is what the search for a child stops at |
| MarkupNodes.NodeEnds | src/core/MarkupSTL.cpp:971-1032 | a comment, an instruction, a CDATA section ends right behind the first "-->", "?>", "]]>", told without the node function; the search for a tag goes on there, whatever is behind |
| MarkupNodes.NodeUnended | src/core/MarkupSTL.cpp:1024-1032 | a text that begins with such a node and holds no end mark is refused |
| MarkupNodes.DocTypeIsTypeEnd | src/core/MarkupSTL.cpp:989-1013 | the loop over the tokens of a document type stops where an automaton over its characters does: at the first '>' outside brackets and quotes |
| MarkupNodes.DocTypeUnended | src/core/MarkupSTL.cpp:989-1012 | a text that begins with a document type that never ends is refused |
| MarkupNodes.PlainTypeEnd | src/core/MarkupSTL.cpp:989-1012 | a document type without quotes and brackets ends at its first '>' |
| MarkupNodes.BracketInWord | src/core/MarkupSTL.cpp:989-1012 | a bracket counts only at the start of a word: "<!a [>]>" is one document type, "<!a[>]>" ends at its first '>' |
| MarkupNodes.TextNodeEnds | src/core/MarkupSTL.cpp:1033-1048 | text without quotes goes on to the next '<', and is white space if all of it is |
| MarkupNodes.GapThenDoc | src/core/MarkupSTL.cpp:49-91 | a document with passed-over text in front is read as the document, with that text before its root |
| MarkupNodes.NodeThenDoc | src/core/MarkupSTL.cpp:971-1032 | with a comment, instruction or CDATA section in front, whatever it holds, SetDoc takes the root of the document behind it |
| MarkupNodes.DocTypeThenDoc | src/core/MarkupSTL.cpp:989-1012 | the same with a document type |
| MarkupTexts.StartIs | src/core/MarkupSTL.cpp:662-704 | a name, anything without a '>', and '>': a start tag of that name, empty exactly if a '/' is before the '>' |
| MarkupTexts.CloseIs | src/core/MarkupSTL.cpp:730-758 | "</M>" ends the element N exactly if M is N or what is before a '[' in N |
| MarkupTexts.LongEndTag | src/core/MarkupSTL.cpp:735-757 | an end tag with anything around its name ends at its first '>' outside quotes |
| MarkupTexts.ElementReads | src/core/MarkupSTL.cpp:641-763 | a document of one element with text is read as its four parts, or refused exactly if the end tag does not match |
| MarkupTexts.EmptyReads | src/core/MarkupSTL.cpp:641-763 | a document of one empty element is read as its tag and what is around it |
| MarkupTexts.NoRoot | src/core/MarkupSTL.cpp:656-697 | what is refused before a root: no '<', an end tag, a '<' at the end, a quote behind the '<' |
| MarkupTexts.NoEnd | src/core/MarkupSTL.cpp:698-728 | a start tag without a '>' and an element without an end tag are refused |
| Markup.CMarkup.Adjust | src/core/MarkupSTL.cpp:1436-1486 | x_Adjust terminates on every linked tree, also for an element just unlinked, and performs exactly the listed visits; links never change |
| MarkupAdjust.NextTodo | src/core/MarkupSTL.cpp:1451-1479 | each turn of the loop takes exactly the first visit off what is still to be visited in document order |
| MarkupAdjust.WorkVisits | src/core/MarkupSTL.cpp:1436-1486 | the visits are to distinct slots: no offset moves twice, nothing before the element is visited, its descendants exactly if bAfterPos is false |
| MarkupAdjust.AdjustMoves | src/core/MarkupSTL.cpp:1436-1486 | both tags of every element behind iPos move by n, those of its descendants unless bAfterPos, of its ancestors only the end tag, iPos itself and what is before it stay |
| MarkupEdits.UnlinkedGood | src/core/MarkupSTL.cpp:1814-1847 | an element that has just been unlinked still has the links by which x_Adjust goes on from it |
| MarkupEdits.StartChanged | src/core/MarkupSTL.cpp:1156-1160 | after a start tag grew by n, moving its own right end, its end tag and what x_Adjust moves makes the index represent the new document |
| MarkupSplice.SpliceBody | src/core/MarkupSTL.cpp:1288-1293 | replacing the text between the tags of a childless element is the replacement of its body in the tree |
| MarkupSplice.SpliceEmpty | src/core/MarkupSTL.cpp:1272-1293 | replacing the '/' of an empty element by body and end tag is the element with a body |
| MarkupSplice.SpliceRemove | src/core/MarkupSTL.cpp:1835-1844 | taking an element and the blank text behind it out of the text takes it out of the tree and joins the gaps |
| Markup.CMarkup.constructor | src/include/MarkupSTL.h:27-27 | a new object holds the empty document and a valid index |
| Markup.CMarkup.SetPos | src/include/MarkupSTL.h:189-195 | the three positions are set, and the node type is that of an element exactly if there is a current one |
| Markup.CMarkup.GetFreePos | src/core/MarkupSTL.cpp:606-615 | slots are handed out in order, the array grows by a half when full, and what it held stays |
| Markup.CMarkup.SetDoc | src/core/MarkupSTL.cpp:49-91 | on every text on which the parser terminates (all but those of DocHangs) returns true exactly if a root element is read; then the slots are the tree that was read, else the index is empty |
| Markup.CMarkup.ParseElem | src/core/MarkupSTL.cpp:641-763 | the recursive parser: error, end tag ahead, or one element whose slots are linked and hold the places of its tags, with all older slots untouched |
| Markup.CMarkup.ParseKids | src/core/MarkupSTL.cpp:713-728 | the loop over the children reads them all, links them in order and stops at the end tag |
| Markup.CMarkup.FindStart | src/core/MarkupSTL.cpp:656-697 | the loop over ignored tags finds the next start tag, an end tag, or fails as the search on the text does |
| Markup.CMarkup.ParseEndTag | src/core/MarkupSTL.cpp:730-758 | the end tag at a place is accepted, with the offset of its '>', or refused for the reason the tokens give |
| Markup.CMarkup.GetAttrib | src/core/MarkupSTL.cpp:1102-1113 | the value of the first attribute of that name in the start tag of the element, or nothing |
| Markup.CMarkup.SetAttrib | src/core/MarkupSTL.cpp:1123-1163 | exactly the start tag of the element is replaced; index, links, well-formedness and closed quotes are kept |
| Markup.CMarkup.RemoveAttrib | src/core/MarkupSTL.cpp:1166-1193 | true exactly if a name of that attribute with = and a string is found; exactly the start tag of the element is replaced, and index and well-formedness are kept |
| Markup.CMarkup.SetData | src/core/MarkupSTL.cpp:1238-1299 | true exactly for an element without child elements; exactly its body is replaced (an empty element gets an end tag), and index and well-formedness are kept |
| Markup.CMarkup.GetData | src/core/MarkupSTL.cpp:1301-1339 | the text of a childless element, of a CDATA section if its body begins with one, unescaped otherwise; nothing for other elements |
| Markup.CMarkup.AddElem | src/core/MarkupSTL.cpp:1575-1709 | all four variants: the document is the old one with exactly one element put at its place, the index represents it, and the positions point at the new element |
| Markup.CMarkup.LocateNew | src/core/MarkupSTL.cpp:1488-1573 | the offset and the sibling to link behind: before or after the related sibling, or first or last among the children, moved over white space up to the next tag |
| Markup.CMarkup.AddAmong | src/core/MarkupSTL.cpp:1622-1702 | under an element with a body: text, links and offsets of the new element, and everything behind it moved once |
| Markup.CMarkup.AddToEmpty | src/core/MarkupSTL.cpp:1618-1702 | under an empty element: it is split into a start and an end tag around the new child, and both are indexed |
| Markup.CMarkup.StartRoot | src/core/MarkupSTL.cpp:1583-1598 | in a document without a root the place is behind all that precedes one |
| Markup.CMarkup.RemoveAt | src/core/MarkupSTL.cpp:1814-1847 | exactly the element and the white space behind it are gone, the siblings are linked around it, and the index represents the rest |
| Markup.CMarkup.RemoveElem | src/core/MarkupSTL.cpp:431-441 | fails only without a current position; the current position becomes the sibling before |
| Markup.CMarkup.RemoveChildElem | src/core/MarkupSTL.cpp:443-453 | the same for the child position |
| MarkupPlaces.SkipsBlanks | src/core/MarkupSTL.cpp:1835-1843 | over white space the edit moves up to the next '<' or the end, over a quote in front of the '<' too, and not at all if any other character comes first |
| MarkupPlaces.PassedIs | src/core/MarkupSTL.cpp:1525-1532 | what x_LocateNew and x_RemoveElem pass over, told in characters |
| MarkupKept.RemovedText | src/core/MarkupSTL.cpp:1835-1844 | the new text: from the start tag to the end tag and what is passed over behind it is gone, every other character stays |
| MarkupKept.RemovedKeeps | src/core/MarkupSTL.cpp:1814-1847 | exactly the element and those in it are gone; all others keep their start tags, and their data unless they are the parent |
| MarkupKept.QuoteGoes | src/core/MarkupSTL.cpp:1838-1843 | a quote between the removed element and the next one is lost, in every document that has one there |
| Markup.CMarkup.NameInDoc | src/core/MarkupSTL.cpp:1051-1061 | the token behind the indexed start of an element is its name |
| Markup.CMarkup.Delimiters | src/core/MarkupSTL.cpp:698-758 | the four offsets of every linked slot point at '<', '>', '<' (or the '/' of an empty element) and '>' in the text |
| Markup.CMarkup.Nesting | src/core/MarkupSTL.cpp:641-763 | children lie strictly between the tags of their parent, siblings are disjoint and increasing |
| Markup.CMarkup.IndexIsReparse | src/core/MarkupSTL.cpp:641-763 | the index is the tree that parsing the document gives, up to slot numbers, whatever is behind the root |
| MarkupLaws.Reparse | src/core/MarkupSTL.cpp:49-91 | parsing the text of an edited document anew succeeds and gives the same elements with the same offsets, whatever is behind the root |
| MarkupLaws.KeptRoot | src/core/MarkupSTL.cpp:641-763 | an edit that keeps the form of a document keeps it one that is parsed as it is |
| MarkupLaws.EraseOffsets | src/core/MarkupSTL.cpp:641-763 | two indexes of one text that differ in slot numbers have the same four offsets for each element in document order |
| MarkupLaws.IndexDetermined | src/core/MarkupSTL.cpp:1436-1486 | the tree determines every field of every linked slot, so an index kept by adjusting is the one built from scratch |
| MarkupParse.ReadsDoc | src/core/MarkupSTL.cpp:641-763 | parsing the text of a document with one well-formed root, and anything behind it, gives that document |
| MarkupParse.ReadDocText | src/core/MarkupSTL.cpp:641-763 | the tree that was read spells exactly the text that was parsed |
| MarkupParse.ReadDocOrder | src/core/MarkupSTL.cpp:606-615 | the slots are numbered 1, 2, ... in document order, none twice |
| MarkupParse.ReadDocForm | src/core/MarkupSTL.cpp:641-763 | what is read is well formed up to the end of the root, and all of it exactly if the text behind the root is |
| MarkupBuild.RootRead | src/core/MarkupSTL.cpp:69-80 | after a successful parse the position array represents the document: links, offsets, distinct slots below m_iPosFree |
| MarkupParse.RoundStays | src/core/MarkupSTL.cpp:662-697 | a round of the search for a tag makes no progress exactly at a '<' that is followed by white space and then '?' or '!' |
| MarkupParse.SearchIsEndless | src/core/MarkupSTL.cpp:662-697 | the rounds of the search for a tag never come to an end exactly if the text begins with something the search passes over, and then a '<', white space and '?' or '!' |
| MarkupParse.StuckIsGap | src/core/MarkupSTL.cpp:662-697 | the same for the search as a function: it is stuck exactly on the texts that are a gap and then such a place |
| MarkupParse.KidsHang | src/core/MarkupSTL.cpp:713-728 | the loop over the children of an element does not terminate exactly if the text goes on over complete elements, gaps and open start tags to such a place |
| MarkupParse.DocHangs | src/core/MarkupSTL.cpp:641-763 | SetDoc does not terminate exactly on the texts that are well formed up to such a place which is before the root element or in it; a place in a comment or CDATA section, behind the root or behind an error does no harm |
| MarkupParse.EndlessText | src/core/MarkupSTL.cpp:949-1049 | x_ParseElem does not terminate on every text: "< !x" is a counterexample |
| MarkupParse.SpacelessDoc | src/core/MarkupSTL.cpp:641-763 | so a text that holds no such place anywhere is parsed in finitely many steps |
| MarkupAdd.PlaceAmong | src/core/MarkupSTL.cpp:1504-1569 | the place of a new element is directly before or directly after the related sibling, or first or last among the children |
| MarkupAdd.AddedText | src/core/MarkupSTL.cpp:1646-1701 | the new text is the old one with the element put in at the offset |
| MarkupKept.AddedIsRead | src/core/MarkupSTL.cpp:1575-1709 | after x_AddElem, in every variant, the new slot has the name and its data are the value; every other element keeps its start tag, and its data unless it is the parent; an empty parent keeps its name |
| MarkupKept.AddedDoc | src/core/MarkupSTL.cpp:1646-1701 | the new text, spelled out: "<NAME>", the escaped value, "</NAME>" (or "<NAME/>") and a line break at the place x_LocateNew looks for, behind what is passed over there; or between the halves of an empty parent |
| MarkupKept.AddAndGet | src/core/MarkupSTL.cpp:1575-1709 | a run of x_AddElem and x_GetData on the object returns the value that was added |
| MarkupAdd.AddedKeeps | src/core/MarkupSTL.cpp:1575-1709 | the document stays well formed exactly if the offset splits its gap into two that the parser passes over |
| MarkupAdd.PlaceSplits | src/core/MarkupSTL.cpp:1525-1532 | every offset x_LocateNew finds splits its gap, but for InsertElem of a root |
| MarkupAdd.InsertRoot | src/core/MarkupSTL.cpp:1517-1532 | InsertElem of a root works at offset 1 of what is there already: the document stays well formed exactly if it does not begin with '<' |
| MarkupAdd.InsertRootOffset | src/core/MarkupSTL.cpp:1517-1532 | the place at which InsertElem of a root replaces nothing by the new text is inside the document exactly if the document is not empty |
| MarkupAttribs.SetTagIs | src/core/MarkupSTL.cpp:1123-1163 | on a tag made of pairs the textual replacement sets the value in place or adds the attribute as the last one |
| MarkupAttribs.CutTagIs | src/core/MarkupSTL.cpp:1166-1193 | on a tag made of pairs the textual replacement takes out the first attribute of the name, and nothing exactly if there is none |
| MarkupAttribs.FindInTag | src/core/MarkupSTL.cpp:1063-1100 | x_FindAttrib finds exactly the first attribute of the name, over quoted values with any characters |
| MarkupAttribs.SetThenGet | src/core/MarkupSTL.cpp:1102-1163 | the attribute reads as it was set, for any value, and every other attribute as before |
| MarkupAttribs.SetThenRemove | src/core/MarkupSTL.cpp:1123-1193 | removing an attribute that was absent before it was set restores the tag |
| MarkupTexts.AttribIs | src/core/MarkupSTL.cpp:1063-1113 | x_GetAttrib on any start tag with closed quotes, also one not made of pairs: the quoted text two places behind the first word of the name, whatever is between them but the end of the tag |
| MarkupTexts.SetTagText | src/core/MarkupSTL.cpp:1133-1156 | on any start tag: the escaped value in place of the old one, or a blank, the name and the value in double quotes before the end |
| MarkupKept.RetaggedDoc | src/core/MarkupSTL.cpp:1123-1193 | in the text of the document exactly the start tag is replaced |
| MarkupKept.RetaggedKeeps | src/core/MarkupSTL.cpp:1123-1193 | every other element keeps its start tag and data, and this one its data |
| MarkupTags.FindAttribExtends | src/core/MarkupSTL.cpp:1063-1100 | in a tag whose quotes close, what is found lies in the tag and does not depend on what follows |
| MarkupTags.ScanAttrib | src/core/MarkupSTL.cpp:1063-1100 | the loop on the document finds what the function on the tag finds |
| MarkupValid.SetTagValid | src/core/MarkupSTL.cpp:1123-1163 | the new start tag is read under the same name, empty or not as before, with its quotes closed |
| MarkupValid.OpenTagValid | src/core/MarkupSTL.cpp:1272-1287 | an empty element can be given a body exactly if its tag does not end in "//>" and its name is not a '>' |
| MarkupValid.CloseIsValid | src/core/MarkupSTL.cpp:1281-1286 | the end tag an edit writes is accepted by the parser exactly if the name is not a '>' |
| MarkupLaws.ReadBackIsForm | src/core/MarkupSTL.cpp:641-763 | a document with one root is read back as it is exactly if it is well formed up to the end of the root |
| MarkupLaws.SplitIsReadBack | src/core/MarkupSTL.cpp:1272-1293 | an empty element anywhere in a document gets a body: the new document is read back as it is meant exactly if the tag does not end in "//>" and the name is not a '>' |
| MarkupLaws.EmptyElemEdits | src/core/MarkupSTL.cpp:1238-1299 | so for x_SetData and AddChildElem on an empty element, with any data and any new element |
| MarkupLaws.SlashStays | src/core/MarkupSTL.cpp:1272-1293 | an input that fails: data set in "<a//>" makes it "<a/>x</a>", which is read as an empty element with text behind the root |
| MarkupLaws.SetThenGetAttrib | src/core/MarkupSTL.cpp:1102-1163 | in the whole document: the attribute reads as it was set, every other attribute of the element as before |
| MarkupLaws.SetThenRemoveAttrib | src/core/MarkupSTL.cpp:1123-1193 | in the whole document: setting an absent attribute and removing it gives back the tree |
| MarkupLaws.SetAndRemove | src/core/MarkupSTL.cpp:1123-1193 | the two calls one after the other restore the text and the index of every element |
| MarkupEntities.TextToDoc | src/core/MarkupSTL.cpp:1341-1375 | the loop escapes the characters one by one, quotes only for attributes |
| MarkupEntities.TextFromDoc | src/core/MarkupSTL.cpp:1377-1412 | the loop reads the five codes back and leaves any other '&' as it is |
| MarkupEntities.FromToDoc | src/core/MarkupSTL.cpp:1341-1412 | reading back what was written gives the text, in both modes and with any text behind it |
| MarkupEntities.ToDocClean | src/core/MarkupSTL.cpp:1341-1375 | written text holds no angle bracket, and no quote in an attribute value |
| MarkupEntities.Writes | src/core/MarkupSTL.cpp:1341-1375 | what is written for each character: "&lt;", "&gt;", "&amp;", in attributes also "&apos;" and "&quot;", and any other character itself |
| MarkupEntities.ToDocJoin | src/core/MarkupSTL.cpp:1341-1375 | what is written for a text is what is written for its parts |
| MarkupEntities.ReadsCode | src/core/MarkupSTL.cpp:1377-1412 | each of the five codes, in front of any text, is read as its character |
| MarkupEntities.ReadsPlain | src/core/MarkupSTL.cpp:1377-1412 | any character but '&' is read as itself |
| MarkupEntities.ReadsAmpersand | src/core/MarkupSTL.cpp:1392-1407 | an '&' is read as itself exactly if none of the five codes follows |
| MarkupEntities.FromDocJoin | src/core/MarkupSTL.cpp:1377-1412 | what is in front of an '&' does not change how the rest is read |
| MarkupValid.CDataEnds | src/core/MarkupSTL.cpp:1196-1236 | the first end mark of a CDATA section the class writes is the section's own |
| MarkupValid.DataReads | src/core/MarkupSTL.cpp:1238-1339 | x_GetData reads back what x_SetData wrote, for any data and either flag, also data that holds an end mark |
| MarkupLaws.SetThenGetData | src/core/MarkupSTL.cpp:1238-1339 | the same in the whole document |
| MarkupKept.RefilledDoc | src/core/MarkupSTL.cpp:1238-1299 | in the text exactly what is between the tags is replaced, or the '/' of an empty element by body and end tag |
| MarkupKept.DataTextIs | src/core/MarkupSTL.cpp:1262-1268 | what is put there: a CDATA section if asked for and the data hold no "]]>", else the escaped data |
| MarkupKept.RefilledKeeps | src/core/MarkupSTL.cpp:1238-1299 | x_SetData leaves the start tag and the data of every other element |
| MarkupTexts.TextData | src/core/MarkupSTL.cpp:1301-1339 | data without markup are the text with its entities read |
| MarkupTexts.CDataData | src/core/MarkupSTL.cpp:1323-1337 | data that begin with a CDATA section, after white space, are what is in the section; what follows it is not looked at |
| MarkupTexts.MarkupData | src/core/MarkupSTL.cpp:1323-1337 | any other markup in the data is returned as it stands in the text |
| Base64.EncodeBase64 | src/core/MarkupSTL.cpp:471-528 | the loops write inside the length computed beforehand and produce the encoding |
| Base64.EncodeInLines | src/core/MarkupSTL.cpp:519-523 | the text is a line break and the characters in lines of 64; a shorter last line is ended only if it is padded |
| Base64.GroupsWidth | src/core/MarkupSTL.cpp:488-518 | four characters for every three bytes or part of them |
| Base64.CodesAreLetters | src/core/MarkupSTL.cpp:486-486 | the code of each number is the one of table 1 of RFC 4648 |
| Base64.GroupIs | src/core/MarkupSTL.cpp:488-518 | three bytes are four codes of six bits each; missing bytes are padded |
| Base64.LinesAre | src/core/MarkupSTL.cpp:519-523 | a line is 64 characters and a line break |
| Base64.Examples | src/core/MarkupSTL.cpp:471-528 | the examples of section 10 of RFC 4648 |
| Base64.Fits | src/core/MarkupSTL.cpp:475-476 | the length computed beforehand holds every group and its line break |
| Base64Decode.DecodeBase64 | src/core/MarkupSTL.cpp:530-599 | for any text every write is inside the buffer, and length and buffer are those of decoding four codes at a time; with length 0 a size is returned and nothing is written |
| Base64Decode.TakeCodes | src/core/MarkupSTL.cpp:555-583 | the loop gathers four codes, over line breaks, in a number that stays within 32 bits |
| Base64Decode.FillBytes | src/core/MarkupSTL.cpp:585-595 | the loop writes the bytes that are not padding, and nothing past three pad characters |
| Base64Decode.BreaksIgnored | src/core/MarkupSTL.cpp:560-563 | where a text is broken into lines makes no difference to what is decoded |
| Base64Decode.DecodedWithin | src/core/MarkupSTL.cpp:530-538 | for any text the decoded length is at most three bytes for every four characters, which the size reported for length 0 exceeds |
| Base64Decode.OrBelow | src/core/MarkupSTL.cpp:566-581 | or-ing six bits below the shifted number adds them to it |
| Base64Decode.BitsAre | src/core/MarkupSTL.cpp:566-581 | what every character brings in, those outside the alphabet too |
| Base64Decode.DecodeEncoded | src/core/MarkupSTL.cpp:471-599 | decoding the encoding puts the bytes at the front of the buffer, leaves the rest, and returns their number |
| Base64Decode.EncodeAndDecode | src/core/MarkupSTL.cpp:471-599 | the same through the three calls, with the reported size large enough |
| JsonValue.EqualIsSame | src/proxy/Json/json_value.cpp:611-652 | operator== holds exactly of equal trees |
| JsonValue.LessIsTotal | src/proxy/Json/json_value.cpp:549-590 | of two values exactly one is less, or they are equal, at any depth |
| JsonValue.LessIsTransitive | src/proxy/Json/json_value.cpp:549-590 | operator< is transitive through type, size and lexicographic comparison of the entries |
| JsonValue.TypesInOrder | src/proxy/Json/json_value.cpp:549-553 | values of different types are in the order of their types: null, int, uint, real, string, bool, array, object |
| JsonValue.SignedFirst | src/proxy/Json/json_value.cpp:549-553 | so the int 5 is less than the unsigned 3 |
| JsonValue.ScalarsInOrder | src/proxy/Json/json_value.cpp:554-569 | numbers are ordered as numbers, false is before true, a string that holds NULL before all others |
| JsonValue.StringsInOrder | src/proxy/Json/json_value.cpp:566-570 | at the first difference the smaller character decides, and a beginning is less than what goes on |
| JsonValue.FewerIsLess | src/proxy/Json/json_value.cpp:572-578 | an array or object of fewer entries is less |
| JsonValue.FirstDifference | src/proxy/Json/json_value.cpp:572-578 | of as many, the first entry that differs decides, by its key or its value |
| JsonValue.FindInsert | src/proxy/Json/json_value.cpp:959-1062 | after an assignment through operator[] the key has the new value and every other key its old one |
| JsonValue.SizeIsHighest | src/proxy/Json/json_value.cpp:856-880 | the size of an array is its highest index and one, whatever is missing below it |
| JsonLex.AccumulateBound | src/proxy/Json/json_reader.cpp:492-503 | the sum of decodeNumber stays below ten times its threshold, so it never wraps |
| JsonLex.IntReads | src/proxy/Json/json_reader.cpp:475-509 | a printed int is read as itself exactly from -2147483639 up, and as a double below |
| JsonLex.UIntReads | src/proxy/Json/json_reader.cpp:475-509 | a printed unsigned int is read with its value exactly up to 4294967289, as an int if it fits |
| JsonLex.UnescapeEscaped | src/proxy/Json/json_reader.cpp:551-595 | decodeString undoes the escapes of valueToQuotedString |
| JsonLex.StringEndEscaped | src/proxy/Json/json_reader.cpp:363-375 | no quote inside an escaped string ends it early |
| JsonGrammar.SpelledReads | src/proxy/Json/json_reader.cpp:551-595 | a string spelled in any way of section 7 of RFC 8259 is decoded as the characters it stands for; codes are dropped |
| JsonGrammar.SpelledEnds | src/proxy/Json/json_reader.cpp:363-375 | and ends at the quote behind it |
| JsonGrammar.TokenIs | src/proxy/Json/json_reader.cpp:173-244 | the kind of the token at each character |
| JsonGrammar.CutAtNul | src/proxy/Json/json_value.cpp:353-363 | of a string with a NUL in it the part before it is kept |
| JsonGrammar.BadEscape | src/proxy/Json/json_reader.cpp:558-590 | any other letter behind a backslash, a lone backslash, and a code without four hexadecimal digits are refused |
| JsonGrammar.Pieces | src/proxy/Json/json_reader.cpp:551-595 | these are all strings that are decoded |
| JsonGrammar.NumberReads | src/proxy/Json/json_reader.cpp:475-509 | the value of every number token: its decimal digits in the bounds of an integer, else a double; "-" is 0 |
| JsonGrammar.Accepts | src/proxy/Json/json_reader.cpp:100-148 | exactly the texts that begin with a document of the grammar are read, each as what the document means |
| JsonGrammar.ArrayHolds | src/proxy/Json/json_reader.cpp:438-471 | an array that was read holds its elements in their order |
| JsonGrammar.ObjectHolds | src/proxy/Json/json_reader.cpp:379-434 | an object that was read holds for each name the value of the last member of that name |
| JsonGrammar.TrailingComma | src/proxy/Json/json_reader.cpp:379-397 | a comma behind the last member is taken if the name of that member is empty |
| JsonParse.Reads | src/proxy/Json/json_reader.cpp:100-148 | any value that can be printed, in any layout of its tokens, is read as the value its tokens stand for, arrays and objects at any depth; doubles and integers out of range are what decodeNumber makes of their text |
| JsonParse.BackIsNormal | src/proxy/Json/json_reader.cpp:475-509 | without doubles and with integers in the range that is read back, that is the value itself, small unsigned numbers as signed ones and holes as null |
| JsonReader.Reader.Parse | src/proxy/Json/json_reader.cpp:75-97 | terminates on every document with the cursor inside it and the stack as at the start; true exactly without errors, false with exactly one |
| JsonReader.Reader.ReadValue | src/proxy/Json/json_reader.cpp:100-148 | only the node on top of the stack changes, the stack is restored, and an error is added exactly if reading fails |
| JsonReader.Reader.ReadObject | src/proxy/Json/json_reader.cpp:379-434 | the same for objects, whatever was skipped in recovery |
| JsonReader.Reader.ReadComma | src/proxy/Json/json_reader.cpp:413-429 | behind a member: a closing brace, a comma, or - after a comment - any token at all |
| JsonReader.Reader.ReadArray | src/proxy/Json/json_reader.cpp:438-471 | the same for arrays |
| JsonReader.Reader.RecoverFromError | src/proxy/Json/json_reader.cpp:639-652 | the cursor comes to stand behind the first token of the given kind, or at the end if there is none; the errors found on the way are dropped |
| JsonReader.Reader.ReadToken | src/proxy/Json/json_reader.cpp:173-244 | the token is the one at the cursor after white space, and the cursor is at its end |
| JsonReader.Reader.SumDigits | src/proxy/Json/json_reader.cpp:492-503 | the loop in 32-bit arithmetic computes the unbounded sum |
| JsonReader.Reader.DecodeNumber | src/proxy/Json/json_reader.cpp:475-509 | the node gets the number the token stands for, or one error is added |
| JsonReader.Reader.DecodeText | src/proxy/Json/json_reader.cpp:540-595 | the characters between the quotes are decoded, or one error is added |
| JsonReader.PutAt | src/proxy/Json/json_reader.cpp:666-669 | what is assigned through the stack is found there and replaces what was assigned before |
| JsonWriter.UintToString | src/proxy/Json/json_writer.cpp:14-24 | the digits fill the end of the buffer, inside it, with no leading zero |
| JsonWriter.IntToString | src/proxy/Json/json_writer.cpp:26-38 | the decimal text of every int, the smallest one included |
| JsonWriter.QuoteString | src/proxy/Json/json_writer.cpp:95-140 | the quoted form, with or without characters to escape |
| JsonWriter.FastWriter.WriteValue | src/proxy/Json/json_writer.cpp:176-231 | appends exactly the compact text of the value |
| JsonWriter.StyledWriter.WriteValue | src/proxy/Json/json_writer.cpp:259-316 | appends the styled text, or pushes exactly one item; indentation and mode are restored |
| JsonWriter.StyledWriter.WriteArrayValue | src/proxy/Json/json_writer.cpp:320-369 | writes the array on one line or several as isMultineArray says, with the scratch list filled for it |
| JsonWriter.StyledWriter.WriteOnLines | src/proxy/Json/json_writer.cpp:326-355 | if the scratch list is used it holds one item for every element |
| JsonWriter.StyledWriter.IsMultineArray | src/proxy/Json/json_writer.cpp:373-400 | leaves the scratch list empty or with exactly one printed item for every element |
| JsonPrint.FastExtends | src/proxy/Json/json_writer.cpp:176-231 | the compact text of any value that can be printed is its tokens behind the document, doubles and all integers included |
| JsonPrint.StyledExtends | src/proxy/Json/json_writer.cpp:259-369 | the styled text of any such value is the same tokens in another layout |
| JsonPrint.FastRoundTrip | src/proxy/Json/json_writer.cpp:166-231 | reading the compact text of any such value gives what its tokens stand for, and the value up to signs and holes if it is one that can come back |
| JsonPrint.StyledMeansFast | src/proxy/Json/json_writer.cpp:245-433 | for every value that can be printed both writers print the same tokens, and both texts are read alike |
| JsonLayout.FastIsTokens | src/proxy/Json/json_writer.cpp:176-231 | the compact text is the tokens of the value and nothing else, with a blank behind each ':' for YAML |
| JsonLayout.StyledIsPretty | src/proxy/Json/json_writer.cpp:259-369 | the styled text of a value, wherever it is written: indented by three blanks for each level, each member and each element of a long array on a line of its own |
| JsonLayout.WritersReturn | src/proxy/Json/json_writer.cpp:166-255 | both writers return that text and a line feed |
| JsonLayout.LongIs | src/proxy/Json/json_writer.cpp:373-400 | an array takes several lines exactly if it has 25 elements, one that is not simple, or a line of 74 characters |
| JsonLayout.IntTextIs | src/proxy/Json/json_writer.cpp:14-48 | an integer is printed in decimal digits |
| JsonLayout.QuoteWrites | src/proxy/Json/json_writer.cpp:95-140 | what is printed for each character of a string |
| JsonLayout.EscapedJoin | src/proxy/Json/json_writer.cpp:95-140 | a string is printed character by character |
| JsonRoundTrip.NormalIsSame | src/proxy/Json/json_writer.cpp:176-231 | a value comes back unchanged exactly if it has no small unsigned number and no hole in an array |
| JsonRoundTrip.WriteAndRead | src/proxy/Json/json_reader.cpp:47-148 | the round trip through the two objects, for any value that can be printed |
| JsonRoundTrip.WriteForYaml | src/proxy/Json/json_writer.cpp:158-174 | with enableYAMLCompatibility the text has its blanks behind the colons and is read as the plain one is |
| JsonRoundTrip.ParseDocument | src/proxy/Json/json_reader.cpp:75-97 | a reader given any document of the grammar, with anything behind it, has what the document means as its root |
| JsonRoundTrip.StyleAndRead | src/proxy/Json/json_writer.cpp:245-255 | what the two writers print of any such value is parsed by two readers with the same outcome and the same root |
| KeydicSpec.NormalHolds | src/include/keydic.inl:136-183 | after any additions the normal tree holds exactly the prefixes of the keys, each cut at its first character outside the alphabet, with the element first added for it |
| KeydicSpec.BothHold | src/include/keydic.inl:136-245 | what both trees hold after any additions: the folded one leaves out cut keys and elements that were duplicates in the normal one |
| KeydicSpec.FoldedHolds | src/include/keydic.inl:185-245 | what a folded tree alone holds |
| KeydicSpec.FoldedIsLowered | src/include/keydic.inl:185-245 | with alphabet characters only, the folded tree holds exactly the lower-cased keys with the elements first added for them |
| KeydicSpec.FoldedIsFirst | src/include/keydic.inl:136-245 | for any additions: the folded tree holds the element first added for a lower-cased key exactly if that addition has alphabet characters only and no earlier key was cut to it, or a later addition that is taken brings the same element |
| KeydicSpec.CutKeyShadows | src/include/keydic.inl:227-245 | with a key outside the alphabet the folded tree can lose an element |
| KeydicSpec.LowerStays | src/include/keydic.inl:38-48 | the alphabet is closed under tolower, so the folded position is always found |
| KeydicSpec.AlphabetIs | src/include/keydic.h:16-16 | the alphabet is the printable characters of ASCII, line feed, carriage return and NUL |
| KeydicSpec.LowerIs | src/include/keydic.inl:207-207 | tolower adds 32 to the codes 65 to 90 |
| KeydicSpec.AddReturns | src/include/keydic.inl:136-245 | what add_key returns: -2 if the normal tree has an element for the key, -3 if only the folded one has, else 0 |
| Keydic.StrToPos | src/include/keydic.inl:38-48 | the first position of the character, or -1 |
| Keydic.Enter | src/include/keydic.inl:153-181 | one turn of the loop: the child for the character, made and hung in if missing, and the trie is kept |
| Keydic.AddPath | src/include/keydic.inl:142-183 | the trie grows by exactly the prefixes of the key |
| Keydic.CKeydic.AddKey | src/include/keydic.inl:136-245 | both trees, the return code and where the element is put |
| Keydic.SearchTree | src/include/keydic.inl:258-298 | walks to the longest prefix that is a path and gives its element |
| Keydic.CKeydic.SearchKey | src/include/keydic.inl:247-299 | the longest prefix of the text in the normal tree and its element; -1 and an untouched element if it is empty |
| Keydic.CKeydic.SearchNcaseKey | src/include/keydic.inl:301-349 | the same over the lower-cased text in the folded tree |
| Keydic.CKeydic.InitRoot | src/include/keydic.inl:56-99 | makes the trees the flag asks for, empty |
| Keydic.BuildAndSearch | src/include/keydic.inl:136-349 | for any sequence of additions and any text: exactly the longest prefix that is a prefix of an added key, and the element first added for it |
| Memcheck.Ledger.AddPtr | src/core/memcheck.cpp:38-56 | the block is on the books, on exactly the chain it hashes to; totals and peak follow |
| Memcheck.Ledger.DelPtr | src/core/memcheck.cpp:58-75 | the block is off the books and its slot on the free list; an unknown pointer changes nothing |
| Memcheck.Search | src/core/memcheck.cpp:61-74 | the loop over a chain finds a slot with the pointer and the slot before it, and runs to the end only if there is none |
| Memcheck.Ledger.CutUsed | src/core/memcheck.cpp:62-72 | the pointer-to-pointer removal takes exactly that slot off the chain |
| Memcheck.CutApart | src/core/memcheck.cpp:58-75 | a slot taken off its list is on none, and the others stay on one each |
| Memcheck.ChainCut | src/core/memcheck.cpp:58-75 | the chain holds exactly the remaining blocks that hash to it |
| Memcheck.ChainPushed | src/core/memcheck.cpp:44-50 | the chain holds exactly the blocks that hash to it, with the new one |
| Memcheck.Ledger.ReallocDebug | src/core/memcheck.cpp:208-223 | struck and entered again, also at the same address; a failure changes nothing |
| Memcheck.Ledger.MallocDebug | src/core/memcheck.cpp:178-191 | entered if a block was returned and the ledger is on |
| Memcheck.Ledger.CallocDebug | src/core/memcheck.cpp:193-206 | entered with the product of the sizes |
| Memcheck.Ledger.FreeDebug | src/core/memcheck.cpp:241-251 | struck unless NULL |
| Memcheck.Ledger.Run | src/core/memcheck.cpp:38-251 | after any run the ledger is the map of live blocks, totalsize its sum and maxsize the greatest sum of the run |
| MemcheckBook.SumWithout | src/core/memcheck.cpp:67-67 | the sum does not depend on the order in which blocks are taken away |
| MemcheckBook.BookedIsLive | src/core/memcheck.cpp:150-251 | the books stay the live blocks after a call exactly if it is not a realloc to size 0 that frees the block and answers NULL |
| MemcheckBook.BookedRun | src/core/memcheck.cpp:38-251 | over a run the books are the live blocks and the peak is the greatest sum any state reached |
| MemcheckBook.PeakIsMost | src/core/memcheck.cpp:38-56 | the peak of a run is at least every sum that was reached, and is one of them or the peak before |
| RawCache.Cache.Append | src/proxy/cache.cpp:28-89 | the bytes are appended in place, after sliding down, or in a larger block; a failed allocation changes nothing; one block is outstanding at most |
| RawCache.Cache.Reallocate | src/proxy/cache.cpp:59-75 | the old block goes back to the pool once, with its own size |
| RawCache.Cache.Slide | src/proxy/cache.cpp:80-88 | moving the live bytes to the front of the block keeps them |
| RawCache.Cache.Skip | src/proxy/cache.cpp:90-112 | the skipped bytes are gone; the block goes back when none is left |
| RawCache.Cache.Data | src/proxy/cache.cpp:17-26 | the live bytes start there, inside the block |
| RawCache.FifoIs | src/proxy/cache.cpp:28-112 | after any calls what is left is all that was appended without as many bytes from the front as were skipped |
| RawCache.ConnCache.Do | src/proxy/cache.cpp:28-112 | a call on one queue of a connection leaves the other alone, though they share the pool |
| RawCache.ConnCache.Run | src/proxy/cache.cpp:28-112 | any mix of calls on the two queues, with every block but their own back in the pool |
| BatchAllocator.FullIsMet | src/proxy/Json/json_batchallocator.h:61-75 | over the calls for a batch used_ comes to equal end_ exactly if the block size divides the page size; otherwise it passes it |
| BatchAllocator.FirstOutside | src/proxy/Json/json_batchallocator.h:61-77 | over the calls for a batch every block lies in the memory of the page if the block size divides the page size; otherwise exactly the first objectsPerPage blocks do |
| BatchAllocator.NeverFull | src/proxy/Json/json_batchallocator.h:61-77 | blocks of 8 on a page of 255: the test is never met, and the 256th block is the first outside the memory |
| BatchAllocator.Allocator.RoomUnlessUsed | src/proxy/Json/json_batchallocator.h:61-77 | the next block cut lies in the memory of its page unless the block size does not divide the page size and all that memory is used |
| BatchAllocator.Gap | src/proxy/Json/json_batchallocator.h:74-75 | different multiples of the block size are a block apart |
| BatchAllocator.CutsApart | src/proxy/Json/json_batchallocator.h:53-77 | two different blocks share no object |
| BatchAllocator.Allocator.Allocate | src/proxy/Json/json_batchallocator.h:53-77 | while there is room: a block inside the memory of its batch (up to end_ if the block size divides the page size) that nobody holds and that is apart from every block held |
| BatchAllocator.Allocator.FindBatch | src/proxy/Json/json_batchallocator.h:61-73 | all batches behind the current one are full, so the search ends at the end of the chain and a new batch is put in front |
| BatchAllocator.Allocator.CutNext | src/proxy/Json/json_batchallocator.h:74-76 | cuts exactly one new block, at used_, which moves on by one block; there is room for it |
| BatchAllocator.Allocator.Release | src/proxy/Json/json_batchallocator.h:81-86 | the block is free and no longer held; all cut blocks are held or free |
| BatchAllocator.Allocator.Write | src/proxy/Json/json_batchallocator.h:51-53 | what an owner writes into its block does not reach the free list |
| BatchAllocator.Allocator.constructor | src/proxy/Json/json_batchallocator.h:30-39 | for any block and page size the class accepts: starts with a dummy page that counts as full |
| List.NextPrev | src/include/list.h:17-19 | in a ring next and prev undo each other |
| List.OneCycle | src/include/list.h:17-19 | a ring is one cycle through all its entries |
| List.Rotated | src/include/list.h:17-19 | any entry may be taken for the head: the ring from there on is a ring |
| List.Add | src/include/list.h:37-58 | the entry is put right behind the head |
| List.AddTail | src/include/list.h:67-70 | the entry is put right before the head |
| List.Del | src/include/list.h:90-95 | the others close up; the entry is left with NULL pointers |
| List.DelInit | src/include/list.h:101-105 | the others close up; the entry is a ring of its own |
| List.Move | src/include/list.h:112-116 | from one ring to the head of another |
| List.MoveTail | src/include/list.h:122-127 | from one ring to the tail of another |
| List.MoveWithin | src/include/list.h:112-116 | to the head of its own ring |
| List.SpliceInit | src/include/list.h:138-177 | the entries follow the head of the other list in their order, and their own list is empty |
| List.Empty | src/include/list.h:133-136 | true exactly for a head alone |
| List.ForEach | src/include/list.h:201-207 | visits the entries behind the head in order |
| List.FreeList | src/include/list.h:269-272 | terminates and leaves every former member a ring of its own |
| Clock.StepKeeps | src/core/tm_task.cpp:119-134 | every step of the writer and of a reader keeps which publication each field is from and what each reader may have seen |
| Clock.Snapshot | src/core/tm_task.cpp:180-188 | in every interleaving an accepted snapshot takes each field from the publication of its counter value or the one before |
| Clock.TmSnapshot | src/core/tm_task.cpp:151-159 | the same for the one field of get_time, which is published once for every 21 publications |
| Clock.RoundIsWhole | src/core/tm_task.cpp:180-188 | a round of the loop gets fields of one publication in every interleaving exactly if the writer is not storing when the round begins |
| Clock.CallIsWhole | src/core/tm_task.cpp:180-188 | a call over any number of rounds: its snapshot is that of its last round, and it is whole in every interleaving of that round exactly if the writer was not storing at that round's first read of the counter |
| Clock.AnyCallTorn | src/core/tm_task.cpp:180-188 | from every state in which a call begins, also while the writer is not storing, some interleaving ends the call with fields of two publications: a bump in its first round is enough |
| Clock.WholeIfQuiet | src/core/tm_task.cpp:180-188 | over any number of rounds: a call during which the counter is not bumped gets fields of one publication in every interleaving exactly if the writer is not storing when it begins |
| Clock.Torn | src/core/tm_task.cpp:180-188 | an interleaving in which an accepted snapshot mixes two publications |

## Left out

- Markup.CMarkup.SetDoc: requires a text that is not `Endless`, a condition on the text alone, which by `MarkupParse.DocHangs` excludes exactly the texts on which the source never returns.
- Markup.CMarkup.ParseElem: the same requirement for the text from its start on; ParseKids and FindStart likewise, with `EndlessKids` and `GetsStuck`.
- Markup.CMarkup.GetAttrib: requires a start tag whose quotes close before its `>`; past an open quote the source reads on in the document.
- Markup.CMarkup.SetAttrib: the same, and a plain name of one token; the variant for an integer value only formats it.
- Markup.CMarkup.RemoveAttrib: requires a start tag of `name="value"` pairs; for a name without a value the source looks for `=` and the string behind the tag.
- Markup.CMarkup.SetData: for an empty element, requires that it can be split, since the new text would be misread exactly if it cannot (`MarkupLaws.EmptyElemEdits`).
- Markup.CMarkup.GetData: without a position only for a document that has a root.
- Markup.CMarkup.AddElem: requires a plain name, an empty parent that can be split, and for `InsertElem` of a root some text that is there already (`MarkupAdd.InsertRootOffset`); in that one case well-formedness is not promised, see `MarkupAdd.InsertRoot`.
- Markup.CMarkup.IndexIsReparse: requires text before the root that the parser passes over, as every document that was parsed has; with other text there (a root added behind a text that could not be parsed) the document is read as another one, by `MarkupLaws.ReadBackIsForm`.
- JsonReader.Reader.Parse: comments are skipped but not collected, and the text and place of an error message are not modelled.
- JsonParse.Reads: doubles are read by an arbitrary function in place of `sscanf`, so a value that holds one comes back as what that function makes of its text.
- JsonPrint.FastRoundTrip: doubles are printed by an arbitrary function in place of `sprintf`, of which only the shape of a number is assumed; default-constructed strings, which hold NULL, are not printed.
- JsonValue.LessIsTotal: doubles are reals, so there is no NaN, and keys of one map are all indices or all names.
- Memcheck.Ledger.Run: the addresses come from the caller, who must answer as the C library does; `dump_non_delete`, logging and a failing allocation of a slot are not modelled.
- RawCache.Cache.Append: lengths do not wrap at 32 bits; the pool is its contract only, open in which block it hands out and when it fails. The destructor of the source does not give a block back.
- BatchAllocator.Allocator.Allocate: requires room for the block it cuts; by `RoomUnlessUsed` there always is if the block size divides the page size, and for `objectsPerPage` blocks if not. `malloc` does not fail, and its size does not wrap.
- Keydic.CKeydic.AddKey: allocation does not fail; `release_items` is not modelled, as freeing memory has no counterpart here.
- List.Move: the head is not the moved entry itself, for which the source would link stale pointers.
- Clock.Snapshot: memory is sequentially consistent, and a counter does not pass through all its 32-bit values within one read; a restart of the writer is not modelled.
- `x_AddNode`, `x_RemoveNode`, `x_AdjustForNode` and the node branches of `x_SetData` and `x_GetData`: they do not keep the index invariant.
- `x_AddSubDoc`, saved positions, `FindElem` with paths, `GetChildSubDoc`, and loading and saving files.
- `\u` escapes are decoded and dropped by the source; the model keeps the decoding and the drop but says nothing of Unicode.
- `Value::resize`, `removeMember`, `Path`, `StyledStreamWriter`, and the internal map and array, which are switched off.
- Streams, sockets, timers, clients, shared memory mapping, atomics and configuration files.

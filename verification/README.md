# A verified model of mdb_v8's core

mdb_v8 is a debugger module that decodes the heap of a JavaScript program, as
the V8 engine laid it out, from a memory image that may be incomplete or
corrupt. This project models the parts of it with the most intricate logic and
proves what they compute:

- **Strings**: the bounded string buffer, the look-ahead state machine that
  writes string data chunk by chunk and truncates it with `[...]`, and the
  recursion through ropes, slices and external strings, up to the round trip from
  a string's layout in memory to its printed text (`StoredStrings.WriteStored`).
- **findjsobjects**: grouping every object in memory by what it looks like, the
  order of the groups, and the pass that finds who refers to marked addresses.
- **Property decoding**: descriptor arrays (two layouts, two indexing rules, bit
  fields), dictionaries and layout descriptors, each against an encoder and
  together (`PropertyLayouts.DecodeLaidOut`).
- **Back references**: the memory scan, the backward search for object headers
  and the bounded search through a heap with cycles.
- **JoinStream**, from the bundled `mdbv8diff` tool: an event-driven merge join
  whose output does not depend on the order of events, re-entrant ones included.
- **Smaller pieces**: line lookup, ScopeInfo regions, paged array iteration and
  the table of V8 classes.

`dafny verify dfyconfig.toml` checks everything.

## How it is modelled

`CoreFile.Core` is a memory image: two finite maps, from addresses to words and
from addresses to bytes, and the values of the `V8_*` constants. Whatever is not
in a map cannot be read. Words and bytes are independent, so the results hold
for more images than can exist. Programs are 64-bit: words have 8 bytes and SMIs
are shifted by 32, and heap objects and SMIs are told apart by the tags 1 under
mask 3 and 0 under mask 1. Tests of an instance type's bits are given by the set
of type bytes that pass them.

Code that changes state is imperative here too (`Strbuf`, `SeqWriter`,
`FindJsObjects`, `ReferencePass`, `JoinStream`, `Table` are classes, and the
loops of the source are loops). Each such method is proved against functions of
the old state, and the main theorems are about these functions. C callbacks are
total functions from a state to a state and a result. Nodes of libavl trees are
kept in a plain search tree (`OrderedTree`), and `qsort()` is an insertion sort.

For the join stream, what Node decides is nondeterministic: when rows arrive, when
`end` fires (only after a source's rows have been consumed), what `push()`
returns, which event comes next, and which events arrive while `push()` runs and
`js_working` is set.

The comments of `v8whatis_t` have `v8w_addr` and `v8w_origaddr` the other way
round than the code sets them; the model follows the code.

## Where the code does less than it promises

Each of these is kept as it is in the model, with a lemma that gives an input and
another that says exactly when the promise holds.

- `mdbv8_strbuf_nbytesforchar()` charges two bytes for `"` in JSON mode while
  `mdbv8_strbuf_appendc()` writes one, against the comment that both must agree.
  Text that fits can be truncated (`Truncation.QuotesTruncateEarly`,
  `Truncation.FittingJsonIsWholeIff`).
- `mdbv8_strbuf_appendc()` does not escape `"` in JSON mode: for a reader the
  literal ends there (`Escapes.QuoteEndsLiteral`, `Escapes.JsonReadsBackIff`).
- `JoinStream` compares the first key of a source with `null`, which counts as 0:
  a sorted source of negative numbers is reported as out of order
  (`JoinStreams.NegativeFirstKeyIsRejected`, `JoinStreams.OrderCheckIsSortedness`).
- `v8contains()` adds the in-object properties to an instance size that includes
  them, and leaves out a last word that holds a single byte of a sequential
  string (`WhatIs.WordAfterObjectIsClaimed`, `WhatIs.LastCharacterIsDisowned`,
  `WhatIs.ContainsIsExactExcept`).
- `v8fixedarray_iter_elements()` compares the next index with `length - 1`, so
  it misses the last element of arrays of 1025, 2049, ... elements
  (`ArrayIteration.LastElementIsMissed`, `ArrayIteration.CompleteIff`).
- `v8array_iter_elements()` returns 0 when a page cannot be read and the rest of
  the array is not seen (`ArrayIteration.ReadErrorIsDropped`,
  `ArrayIteration.ArrayIsSeenWhole`).
- `v8context_var_value()` adds in an `unsigned int`: an index near its limit
  yields one of the context's fixed slots rather than an error
  (`ScopeInfos.WrappedIndexReadsFixedSlot`, `ScopeInfos.VarValueIsExactIff`).

## Model

| member | source | states |
|---|---|---|
| `StringBuffer.CostBoundsEmit` | src/mdb_v8_strbuf.c:115-182 | What the look-ahead charges for a character is at least what is written for it, and the two agree on everything but `"` in JSON mode |
| `StringBuffer.EncodeWithinCost` | src/mdb_v8_strbuf.c:115-182 | The charge for a whole text bounds its encoded size; they are equal exactly when no `"` occurs in JSON mode |
| `StringBuffer.PutConcat` | src/mdb_v8_strbuf.c:194-207 | Formatting in pieces leaves the same bytes as formatting at once, wherever the pieces are cut |
| `StringBuffer.PutGrows` | src/mdb_v8_strbuf.c:194-207 | Appending never touches what is there, nor capacity and reservation |
| `StringBuffer.PutFills` | src/mdb_v8_strbuf.c:194-207 | Text is cut exactly if it does not fit outside the reservation, and then the buffer is full |
| `StringBuffer.Strbuf.constructor` | src/mdb_v8_strbuf.c:25-77 | A new buffer is empty, with one byte kept for the terminator |
| `StringBuffer.Strbuf.Rewind` | src/mdb_v8_strbuf.c:101-107 | Drops the text and nothing else |
| `StringBuffer.Strbuf.Reserve` | src/mdb_v8_strbuf.c:109-113 | Changes the reservation and nothing else |
| `StringBuffer.Strbuf.BytesLeft` | src/mdb_v8_strbuf.c:92-99 | The room for text, less terminator and reservation, and 0 if that is negative |
| `StringBuffer.Strbuf.Sprintf` | src/mdb_v8_strbuf.c:194-207 | Appends as much of the text as fits outside the reservation; position, remaining size, buffer size and NUL terminator stay consistent |
| `StringBuffer.Strbuf.AppendC` | src/mdb_v8_strbuf.c:115-159 | Appends the bytes that stand for one character, cut where the buffer ends; `Escapes` says what they mean to a reader |
| `StringBuffer.Strbuf.AppendS` | src/mdb_v8_strbuf.c:215-225 | Character-wise appending of a C string equals one append of its whole encoding |
| `Escapes.CharReadsBack` | src/mdb_v8_strbuf.c:115-159 | Read as part of a JSON literal, the bytes written for a character other than the quote give that character back, or a question mark if it is not ASCII or a control character without an escape |
| `Escapes.JsonReadsBackIff` | src/mdb_v8_strbuf.c:115-159 | What is written for a text in JSON mode, in quotes, is a JSON literal for that text exactly if there is no quote in it |
| `Escapes.JsonEndsAtQuote` | src/mdb_v8_strbuf.c:145-147 | A quote is not escaped: for a reader the literal ends there, and the rest follows it |
| `Escapes.QuoteEndsLiteral` | src/mdb_v8_strbuf.c:145-147 | The text a"b is read back as a |
| `Escapes.PlainBytes` | src/mdb_v8_strbuf.c:115-159 | Without JSON one byte is written for each character: the low byte of its code, or a question mark for what is not ASCII if only ASCII is wanted |
| `Escapes.CStringIsCopied` | src/mdb_v8_strbuf.c:215-225 | Without flags a C string is appended as it is, whatever its bytes |
| `Truncation.WriteCharsExact` | src/mdb_v8_string.c:427-557 | For every text and buffer: the output is the encoding of the characters before the first one that can be followed neither by a marker nor by the whole rest, then as much of the marker as there is room for |
| `Truncation.WholeOrMarked` | src/mdb_v8_string.c:427-557 | With room for the marker at the start, the output is the whole encoding, or a prefix of it and the complete `[...]`; never over the limit |
| `Truncation.FittingTextIsWhole` | src/mdb_v8_string.c:492-557 | A text whose charge fits is written whole under all flags |
| `Truncation.TruncationIsLongest` | src/mdb_v8_string.c:427-557 | Without `"` in JSON mode: whole exactly when the encoding fits, and otherwise the longest prefix that leaves room for the marker |
| `Truncation.QuotesTruncateEarly` | src/mdb_v8_strbuf.c:115-182 | Six quotes need six bytes, but are truncated in a buffer with seven left |
| `Truncation.FittingJsonIsWholeIff` | src/mdb_v8_strbuf.c:115-182 | Exactly when a JSON text that fits is written whole, for every buffer: at every position from which a character and a marker do not fit, the quotes to come do not outnumber the spare bytes |
| `Truncation.StuckIffQuotesUncovered` | src/mdb_v8_string.c:492-557 | At one position of a fitting JSON text, the writer stops exactly when the quotes to come outnumber the spare bytes |
| `SequentialString.VRead` | src/mdb_v8_string.c:386-408 | A read delivers all of the range if all of it is readable, and fails otherwise |
| `SequentialString.SeqWriter.constructor` | src/mdb_v8_string.c:279-384 | A new write has written nothing, stands at the slice offset and is done only if there is nothing to write |
| `SequentialString.SeqWriter.FinalAtStart` | src/mdb_v8_string.c:279-384 | A new write is to end as the one-shot specification says of the characters in memory |
| `SequentialString.SeqWriter.ScanChunk` | src/mdb_v8_string.c:492-557 | The look-ahead charges exactly the characters that remain in the chunk, or in the string if that is less |
| `SequentialString.SeqWriter.SizeCheck` | src/mdb_v8_string.c:492-557 | NODANGER exactly when the character and a marker fit; WILLFIT and WONTFIT are right about the whole rest of the string; DONTKNOW never at the start of a chunk or in the last one |
| `SequentialString.SeqWriter.TakeChar` | src/mdb_v8_string.c:427-490 | One character is appended in full and offset, count and chunk position move on together |
| `SequentialString.SeqWriter.ReadChunk` | src/mdb_v8_string.c:386-426 | Fetching a chunk loads the next unread characters; it fails only on unreadable data |
| `SequentialString.SeqWriter.WriteOne` | src/mdb_v8_string.c:427-490 | One step keeps the final output that the specification calls for, and either advances or ends the chunk beyond its start |
| `SequentialString.SeqWriter.WriteLoaded` | src/mdb_v8_string.c:427-490 | A loaded chunk is finished with the specified final output unchanged, and the write is done or has advanced |
| `SequentialString.SeqWriter.CheckAscii` | src/mdb_v8_string.c:411-426 | The first byte of external data is checked once; the final output is unchanged |
| `SequentialString.FirstByteInvalidIff` | src/mdb_v8_string.c:411-426 | External data looks invalid exactly if its first byte has the top bit set |
| `SequentialString.SeqWriter.WriteChunk` | src/mdb_v8_string.c:386-490 | Each call finishes or strictly increases the number of characters read, and keeps the specified final output unless a read fails |
| `SequentialString.SeqWriter.Run` | src/mdb_v8_string.c:376-384 | The loop terminates and leaves exactly the output that was specified when it started, or what was written before a read failed and the message |
| `SequentialString.WriteRun` | src/mdb_v8_string.c:279-384 | For every admissible chunk size and any memory: the chunked writer produces what the one-shot specification `WriteChars` says of the characters in memory; only if not all of them can be read, it may instead end with the read error after characters written in full, none of them at or after the first unreadable one |
| `Ropes.RopePrintsItsFlattening` | src/mdb_v8_string.c:562-639 | A rope whose flattened text fits is printed as exactly the encoding of that text, without error |
| `Ropes.ReadableIsPrinted` | src/mdb_v8_string.c:562-639 | Where everything can be read, the only output is the one specified |
| `Ropes.SecondHalfAfterMarker` | src/mdb_v8_string.c:562-596 | A cons string that does not fit, whose second half is printed behind the marker of the first |
| `Ropes.MarkerIsCutShort` | src/mdb_v8_string.c:562-596 | A cons string whose first half leaves no room for the marker, which is cut |
| `Ropes.FailsIffLongChain` | src/mdb_v8_string.c:191-200 | Writing fails exactly when some chain of n cons cells starts at the string |
| `Ropes.UnfoldIsStable` | src/mdb_v8_string.c:191-220 | A deeper limit changes nothing for strings that do not exceed a shallower one |
| `Ropes.StringPrintsItsText` | src/mdb_v8_string.c:176-228 | A string whose text fits is printed as that text, quoted or not, unless it is too deep, and then it is an error |
| `Ropes.CyclicRopeFails` | src/mdb_v8_string.c:191-200 | Ropes that run into a cycle end in the depth error at every limit |
| `Ropes.TooDeepIsReported` | src/mdb_v8_string.c:191-200 | A string that is too deep is an error, and prints a message |
| `JSString.SliceLength` | src/mdb_v8_string.c:307-331 | The clipped slice stays within the string |
| `JSString.SliceIsSubstring` | src/mdb_v8_string.c:307-331 | A slice reads as that part of the parent's text, clipped to what there is of it, and is readable where the parent is |
| `JSString.SliceHasItsOwnWidth` | src/mdb_v8_string.c:601-639 | A slice is read with its own width, from its offset in the parent, clipped to the length of the parent |
| `JSString.LoadedIsThere` | src/mdb_v8_string.c:66-139 | Nothing but a string is loaded, and its length, encoding and parts are what memory holds |
| `JSString.DamageIsReported` | src/mdb_v8_string.c:562-697 | The message that is printed for each string that cannot be taken apart |
| `JSString.WriteSeq` | src/mdb_v8_string.c:279-384 | Sequential data is written as specified for its characters; only if some are unreadable, it may end with the read error after readable characters written in full |
| `JSString.WriteSliced` | src/mdb_v8_string.c:601-639 | Prints the part of a sequential parent, readable or not, or the message for the other cases |
| `JSString.WriteExt` | src/mdb_v8_string.c:645-697 | Prints external one-byte data, readable or not, or the message for data that looks invalid or is two-byte |
| `JSString.WriteCons` | src/mdb_v8_string.c:562-596 | Prints the left half and then the right half unless the left failed, readable or not; fails exactly when the unfolded rope does |
| `JSString.WriteRep` | src/mdb_v8_string.c:191-220 | Prints the unfolding of the string at its depth, with the read errors of unreadable leaves; terminates on every heap |
| `JSString.WriteQuoted` | src/mdb_v8_string.c:202-227 | Prints the unfolding between quotes; a write that starts with two bytes left ends with its closing quote, whatever happens inside |
| `JSString.Write` | src/mdb_v8_string.c:176-228 | On every heap, cyclic, corrupt or incomplete: the result and the output are those of the unfolded rope at the given depth, within quotes if asked for, where each unreadable leaf may end in the read error after readable characters |
| `JSString.CloseQuote` | src/mdb_v8_string.c:202-227 | Whatever a body did between the quotes, the reserved byte is there for the closing quote |
| `JSString.HeapStringPrintsItsText` | src/mdb_v8_string.c:191-228 | From depth 0: a string whose text fits is printed as that text exactly when no chain of 257 cons cells starts at it |
| `StoredStrings.StoredLoads` | src/mdb_v8_string.c:66-139 | Every string laid out in memory, of any of the four representations, is loaded with its length, encoding and parts |
| `StoredStrings.CharsAreRead` | src/mdb_v8_string.c:427-452 | Characters laid out with one or two bytes are read back, bytes above 127 sign-extended |
| `StoredStrings.ReadTextPrintsTheSame` | src/mdb_v8_strbuf.c:115-182 | The sign extension makes no difference to what is printed or charged |
| `StoredStrings.StoredReads` | src/mdb_v8_string.c:559-697 | Each part of a stored string is taken apart as it was put together: slices to their part of the parent, external strings to their data |
| `StoredStrings.StoredUnfolds` | src/mdb_v8_string.c:191-220 | Unfolding a stored string as deep as it is high yields its text |
| `StoredStrings.WriteStored` | src/mdb_v8_string.c:66-228 | Round trip: a string laid out in memory that fits is printed as exactly the text it was laid out with, quoted or not, without error, up to 256 nested cons cells from depth 0; in JSON mode a reader gets the text back unless it has quotes |
| `MergeJoin.JoinKeepsRows` | tools/mdbv8diff/vstream-join.js:4-47 | Every source's rows occur in the join once each and in order |
| `MergeJoin.JoinIsSound` | tools/mdbv8diff/vstream-join.js:4-47 | The join of sorted sources satisfies the definition of a join: complete columns, well-formed rows, keys that do not decrease |
| `MergeJoin.JoinIsUnique` | tools/mdbv8diff/vstream-join.js:4-47 | Whatever satisfies the definition of a join is the computed one |
| `MergeJoin.MinKeyIsLeast` | tools/mdbv8diff/vstream-join.js:210-217 | The key chosen is the least of the first rows, and there is none exactly when all sources are empty |
| `JoinStreams.JoinStream.constructor` | tools/mdbv8diff/vstream-join.js:48-87 | A new stream has pushed nothing and has everything still to come |
| `JoinStreams.JoinStream.ReadSource` | tools/mdbv8diff/vstream-join.js:176-199 | One source's turn neither loses nor repeats a row, and a descent is reported before the row is used |
| `JoinStreams.JoinStream.ReadSources` | tools/mdbv8diff/vstream-join.js:176-204 | Afterwards every source has a row in hand or is done, or one of them is blocked, or an error is reported |
| `JoinStreams.JoinStream.EarliestKey` | tools/mdbv8diff/vstream-join.js:210-217 | The key found is the least key among everything that remains |
| `JoinStreams.JoinStream.Emit` | tools/mdbv8diff/vstream-join.js:235-246 | The row emitted joins the first remaining rows with the least key, and exactly these are used up |
| `JoinStreams.JoinStream.EmitNext` | tools/mdbv8diff/vstream-join.js:235-250 | The row is pushed after all earlier ones, and the answer of `push` is noted; events that arrive meanwhile change neither output nor remainder |
| `JoinStreams.JoinStream.Push` | tools/mdbv8diff/vstream-join.js:248-250 | While `push` runs any events may arrive; the output grows by the row and by nothing else; it is never called between a `push` that returned false and the next `_read` |
| `JoinStreams.JoinStream.Interrupt` | tools/mdbv8diff/vstream-join.js:108-130 | Any sequence of events while `js_working` is set, among them a re-entrant `_read`, leaves output, remainder and flags as they are |
| `JoinStreams.JoinStream.EndOfSources` | tools/mdbv8diff/vstream-join.js:219-226 | The assertion holds: when no key is left, every source is done |
| `JoinStreams.JoinStream.Kick` | tools/mdbv8diff/vstream-join.js:162-255 | Keeps output plus join of the remainder equal to the whole join, whatever arrives during `push`; afterwards the stream has ended, failed, was asked to pause, or waits for a source from which nothing has arrived |
| `JoinStreams.JoinStream.KickIfWaiting` | tools/mdbv8diff/vstream-join.js:122-130 | Does nothing unless the stream waits, and otherwise goes on as `kick`, so that no row that has arrived is left unread; its assertion `!js_working` never fails, also for events that arrive during `push` |
| `JoinStreams.JoinStream.SourceReadable` | tools/mdbv8diff/vstream-join.js:76-78 | A `readable` event at any time, also during `push`: afterwards the stream waits only if some source has nothing to read |
| `JoinStreams.JoinStream.SourceEnded` | tools/mdbv8diff/vstream-join.js:80-83 | An `end` event, once the source's rows are consumed, at any time, also during `push`: afterwards the stream waits only for another source |
| `JoinStreams.JoinStream.Read` | tools/mdbv8diff/vstream-join.js:108-115 | A `_read` starts the stream unless it works or waits, in which case it changes nothing; afterwards it is at rest |
| `JoinStreams.RunSchedule` | tools/mdbv8diff/vstream-join.js:108-255 | For every schedule of events, between and inside calls of `push`, and every answer of `push`: the output is a prefix of the join of the sources with ascending keys and rows once and in order; it ends only with the whole join of sources that are all in order; it fails only if a source is out of order, and no row that fails the check is part of the output; and once asked, unless it was told to pause or failed, it has ended if no source still owes it rows or its end |
| `JoinStreams.Pause` | tools/mdbv8diff/vstream-join.js:248-254 | After `push` has returned false nothing is pushed, and the stream does not end, before the next `_read`, whatever other events arrive |
| `JoinStreams.OrderCheckIsSortedness` | tools/mdbv8diff/vstream-join.js:193-198 | The order check accepts exactly the sorted sources, except numeric ones whose first key is negative |
| `JoinStreams.NegativeFirstKeyIsRejected` | tools/mdbv8diff/vstream-join.js:193-198 | A sorted source that starts with -5 is rejected |
| `JoinStreams.ReadingKeepsOrder` | tools/mdbv8diff/vstream-join.js:190-198 | A row that passes the check does not come before any earlier row or the last output row |
| `JoinStreams.TakingKeepsOrder` | tools/mdbv8diff/vstream-join.js:236-246 | Giving up the rows with the least key removes exactly these from what remains |
| `MemoryScan.UgrepMapping` | src/mdb_v8_dbi.c:74-111 | The chunked scan of a mapping calls back for exactly the words that a word-by-word scan finds, in order, and stops at the first non-zero result |
| `MemoryScan.Ugrep` | src/mdb_v8_dbi.c:48-71 | Likewise over all mappings; a callback that stops the scan yields -1 |
| `MemoryScan.HitsAreExact` | src/mdb_v8_dbi.c:84-110 | Words found have the value sought and lie in readable chunks, and all of these are found, in strictly increasing order |
| `MemoryScan.HitsInMemory` | src/mdb_v8_dbi.c:74-111 | In terms of addresses: a word is found exactly if it has the value sought and every word of the mapping that shares its buffer can be read |
| `MemoryScan.AllHitsAreExact` | src/mdb_v8_dbi.c:48-111 | Likewise for all mappings |
| `MemoryScan.AllHitsAreDistinct` | src/mdb_v8_dbi.c:48-111 | No word is found twice if the mappings do not overlap |
| `MemoryScan.ScanBuffer` | src/mdb_v8_dbi.c:99-108 | One buffer delivers exactly its own words |
| `MemoryScan.ReadWords` | src/mdb_v8_dbi.c:90-97 | A buffer is read completely or skipped |
| `WhatIs.V8WhatIs` | src/mdb_v8_whatis.c:32-130 | The backward loop finds what `Lookup` says, and fills in the addresses and, once a header is found, base and type |
| `WhatIs.NearestIsNearest` | src/mdb_v8_whatis.c:62-104 | The header found is the first word met, stepping back within the limit, that refers to a Map |
| `WhatIs.NotFoundIff` | src/mdb_v8_whatis.c:62-109 | No object is found exactly if no word within the limit looks like a header |
| `WhatIs.LooksLikeObjectIff` | src/mdb_v8_whatis.c:62-104 | A header is a word that refers to a Map, whose own Map says so, and that gives a readable type |
| `WhatIs.MapGivesSizes` | src/mdb_v8_subr.c:216-252 | Instance size and number of in-object properties are those in the Map |
| `WhatIs.UnknownSizeIsOk` | src/mdb_v8_whatis.c:124-129 | An object whose size cannot be read is taken to contain the address |
| `WhatIs.OwnerIsFound` | src/mdb_v8_whatis.c:62-129 | On a heap without stray headers any address inside an object in range yields that object; V8W_OK unless one byte of a string is all there is in that word |
| `WhatIs.GapIsNotOwned` | src/mdb_v8_whatis.c:105-129 | An address past the nearest object is answered with V8W_ERR_DOESNTCONTAIN, except for the words wrongly added to a JSObject |
| `WhatIs.ContainsIsExactExcept` | src/mdb_v8_subr.c:175-253 | `v8contains` is right about a word exactly outside its two known exceptions |
| `WhatIs.FixedArrayWordsAreExact` | src/mdb_v8_subr.c:209-215 | For FixedArrays it is right about every word |
| `WhatIs.WordAfterObjectIsClaimed` | src/mdb_v8_subr.c:216-252 | A memory image in which the word after a JSObject is taken to be part of it |
| `WhatIs.LastCharacterIsDisowned` | src/mdb_v8_subr.c:186-208 | A memory image in which the word with the last character is not taken to be part of its string |
| `FindRefs.SearchPrintsPathEnds` | src/mdb_v8.c:6160-6310 | The search prints the ends of all reference paths, one for each, in order, and never fails |
| `FindRefs.PathsAreExact` | src/mdb_v8.c:6160-6310 | The enumeration lists a chain of references exactly when it is a path: FixedArrays in between, a reported value at the end, at most maxdepth long |
| `FindRefs.PathsAreDistinct` | src/mdb_v8.c:6160-6310 | No path is listed twice |
| `FindRefs.SearchIsExact` | src/mdb_v8.c:6153-6310 | On any graph, with or without cycles: an address is printed if and only if it ends a path within the depth limit |
| `FindRefs.FunctionsAreClose` | src/mdb_v8.c:6217-6234 | JSFunctions are printed only at the end of at most two references |
| `FindRefs.JsFindRefs` | src/mdb_v8.c:6153-6157 | One lap does what the search over the memory image's graph does |
| `FindRefs.FollowReference` | src/mdb_v8.c:6159-6310 | Following one reference does what the search over the graph does |
| `FindRefs.FindReferences` | src/mdb_v8.c:6153-6310 | The whole search on any memory image: terminates, succeeds, and prints exactly the ends of reference paths |
| `FindRefs.OwnerOfWord` | src/mdb_v8.c:6176-6197 | On a heap that is laid out the owner of a reference is the object around it, and a word past the end of an object has none; the exceptions are those of `v8contains` |
| `FindRefs.EachPathOnce` | src/mdb_v8.c:6153-6310 | On mappings that do not overlap every path is reported exactly once |
| `Signatures.FindJsObjectsCmp` | src/mdb_v8.c:4804-4842 | Walking both property lists compares as the order on signatures |
| `Signatures.CmpSign` | src/mdb_v8.c:4804-4842 | The comparison is antisymmetric and zero exactly on equal signatures |
| `Signatures.CmpIsTotalOrder` | src/mdb_v8.c:4804-4842 | The comparison is a total order |
| `Signatures.StrCmpIsLexicographic` | src/mdb_v8.c:4804-4842 | Names compare by their first difference, where the end of a name comes first |
| `OrderedTree.FindIsExact` | src/mdb_v8.c:5125-5134 | Lookup by an order finds exactly what is stored |
| `OrderedTree.AddKeepsOrder` | src/mdb_v8.c:5125-5134 | Adding under a key that was not found keeps the tree ordered |
| `FindObjects.FindJsObjects.Build` | src/mdb_v8.c:4894-4922 | The callbacks collect the property names in order, count them, and mark the object if all there is is a placeholder |
| `FindObjects.FindJsObjects.Inspect` | src/mdb_v8.c:5074-5118 | An address is accepted exactly when the checks pass, and is counted then, as an object or an array and as garbage if it looks like it |
| `FindObjects.ArrayIsAcceptedIff` | src/mdb_v8.c:5094-5118 | A JSArray of length n over a FixedArray of length m in memory is accepted exactly if n <= m, and grouped as an Array of length n |
| `FindObjects.ObjectIsAcceptedIff` | src/mdb_v8.c:5074-5093 | A JSObject or typed array is accepted exactly if its properties can be read, and grouped by their names in order, its constructor, and whether it is to be trusted |
| `FindObjects.OnlyObjectsAreAccepted` | src/mdb_v8.c:5030-5072 | Nothing but heap objects of these three types is accepted |
| `FindObjects.ArraysAreKnownByType` | src/mdb_v8.c:5074-5118 | What is counted as an array is a JSArray by its type, and what is counted as garbage was reported as such |
| `FindObjects.FilingsAreCounted` | src/mdb_v8.c:5074-5118 | The counts of arrays and of garbage are the numbers of such filings |
| `FindObjects.FindJsObjects.File` | src/mdb_v8.c:5120-5143 | Filing an object keeps the groups a partition by signature and the tree in step with them |
| `FindObjects.FindJsObjects.Range` | src/mdb_v8.c:5019-5149 | A range files exactly its accepted addresses, in order, or nothing if it cannot be read |
| `FindObjects.FindJsObjects.Run` | src/mdb_v8.c:5151-5164 | Scanning any ranges keeps the invariant |
| `FindObjects.ScanIsExact` | src/mdb_v8.c:5019-5149 | An address is filed if and only if it lies in a readable range and is accepted |
| `FindObjects.PartitionNew` | src/mdb_v8.c:5127-5133 | A new signature opens a new group |
| `FindObjects.PartitionJoin` | src/mdb_v8.c:5139-5143 | A known signature adds the object behind the first instance of its group |
| `FindObjects.FindGroup` | src/mdb_v8.c:5125 | Lookup by signature finds the group that has it, and fails exactly if there is none |
| `FindObjects.CountsAddUp` | src/mdb_v8.c:5034-5144 | Every filed address is counted in exactly one group |
| `FindObjects.InstanceListIsPermutation` | src/mdb_v8.c:5139-5143 | Instance lists hold every instance once per filing |
| `FindObjects.GroupIsExact` | src/mdb_v8.c:5120-5143 | A group holds exactly the filed addresses with its signature, as often as they were filed |
| `FindObjects.GroupsShareSignatures` | src/mdb_v8.c:5120-5143 | Two addresses share a group exactly when their signatures compare equal |
| `FindObjects.ScanIsGroupedRight` | src/mdb_v8.c:5019-5149 | After a scan the groups hold exactly the acceptable addresses, split by signature, and the instance counts add up to their number |
| `FindObjects.FindAll` | src/mdb_v8.c:5532-5575 | A whole scan of any memory image: acceptable addresses in exactly one group each, split by signature; the counts of groups, instances, objects, arrays and garbage are right |
| `ReferenceIndex.CmpReferentsIsTotalOrder` | src/mdb_v8.c:4852-4863 | Referents are totally ordered by address |
| `ReferenceIndex.FindReferent` | src/mdb_v8.c:5182-5185 | Lookup finds the one referent with the address, or there is none |
| `ReferenceIndex.ReferencePass.Mark` | src/mdb_v8.c:5248-5276 | An address is marked once, at the end of the list |
| `ReferenceIndex.ReferencePass.AddReference` | src/mdb_v8.c:5166-5205 | A reference goes to the end of the list of the referent it refers to; unboxed doubles go nowhere |
| `ReferenceIndex.ReferencePass.AddProperties` | src/mdb_v8.c:5207-5219 | All properties that have a value are considered, in order |
| `ReferenceIndex.ReferencePass.AddElements` | src/mdb_v8.c:5239-5242 | All elements are considered, in order |
| `ReferenceIndex.ReferencePass.AddInstances` | src/mdb_v8.c:5296-5310 | Arrays contribute their elements and other objects their properties |
| `ReferenceIndex.ReferencePass.References` | src/mdb_v8.c:5278-5349 | Each marked address is reported with exactly the references to it, in the order of the traversal; afterwards tree and list are empty |
| `ReferenceIndex.MatchingIsExact` | src/mdb_v8.c:5166-5205 | The references kept are exactly those whose tagged value is the address |
| `ReferenceIndex.MatchingIsInOrder` | src/mdb_v8.c:5166-5205 | References are kept in the order in which they are met, each as often as it is met |
| `ReferenceIndex.CallEdgesAreInOrder` | src/mdb_v8.c:5207-5219 | Each property that has a value is considered once, in order |
| `ReferenceIndex.AllEdgesConcat` | src/mdb_v8.c:5296-5310 | Groups are gone over one after the other |
| `ReferenceIndex.AllEdgesAreExact` | src/mdb_v8.c:5296-5310 | The pass considers exactly the properties and elements of all instances of all groups |
| `ReferenceIndex.ReportedIffFoundByBruteForce` | src/mdb_v8.c:5166-5310 | A reference is reported exactly when going over every object by brute force finds it |
| `ReferenceIndex.CmpNInstancesIsPreorder` | src/mdb_v8.c:4865-4891 | The order used for sorting groups is total up to ties and transitive |
| `ReferenceIndex.SortGroups` | src/mdb_v8.c:5577-5597 | Sorting reorders the groups and loses none; afterwards they ascend by the number of all their properties in a size_t, then of instances, then of properties |
| `ReferenceIndex.ReportIsOrderIndependent` | src/mdb_v8.c:5278-5349 | Which references are reported does not depend on how the groups are sorted |
| `ReferenceIndex.ReportedIffRefersTo` | src/mdb_v8.c:5019-5310 | Over memory: a reference is reported exactly if its holder is an acceptable address in a readable range and, for an array that is not empty, the element at the place reported is the address sought, or otherwise a property of the name reported has the tagged address as its value |
| `ReferenceIndex.ReportReferences` | src/mdb_v8.c:5248-5349 | Scan, sorting, marks and the reverse pass together: every address asked for is reported, with exactly the references that memory holds to it |
| `LayoutDescriptor.LayoutLoad` | src/mdb_v8.c:3070-3149 | Succeeds exactly on Maps without a descriptor, with an SMI, or with a readable array that is short enough, at the address that the V8 version calls for, and then with the layout these stand for |
| `LayoutDescriptor.StoredWordsAreLoaded` | src/mdb_v8.c:3101-3143 | An array of 32-bit words laid out in memory is loaded as these words, and can be used exactly if there are no more than 8 |
| `LayoutDescriptor.WordsFollowPointers` | src/mdb_v8.c:3101-3143 | The words are read from the first aligned address behind the base pointer, or behind one more pointer in newer versions |
| `LayoutDescriptor.EncodedBits` | src/mdb_v8.c:3156-3194 | A bit of an encoded word is set exactly for a field of the set |
| `LayoutDescriptor.SmiDecodesToTheSet` | src/mdb_v8.c:3156-3194 | A set of fields below 32 encoded as an SMI decodes to itself, for every field index |
| `LayoutDescriptor.WordsDecodeToTheSet` | src/mdb_v8.c:3156-3194 | A set of fields below 256 encoded as words decodes to itself for every field index, however many trailing empty words are left out |
| `LayoutDescriptor.LayoutDecodes` | src/mdb_v8.c:3036-3194 | Whichever encoding is chosen for a set of fields, exactly the fields of the set are untagged |
| `Properties.FastProperties` | src/mdb_v8.c:2754-2948 | For any callback: the loop delivers the outcomes of its turns one after the other, up to the first fatal one or the first callback that fails, and then returns -1 |
| `PropCalls.NotifyIsPrefix` | src/mdb_v8.c:2940-2946 | The callbacks made are the first ones, up to and including the first that asks to stop |
| `Properties.RulesAgree` | src/mdb_v8.c:2838-2894 | The newer and the older rule select the same slot |
| `Properties.SlotsAreDistinct` | src/mdb_v8.c:2838-2894 | Distinct field indices select distinct slots, and in-object slots lie within the object |
| `PropertyLayouts.DescsHoldEntry` | src/mdb_v8.c:2762-2776 | In both layouts the descriptor array holds each entry where the loop looks for it |
| `PropertyLayouts.EntryIsThere` | src/mdb_v8.c:2717-2776 | The loop finds every entry's key, details and value, and knows the entries whose details are cut off |
| `PropertyLayouts.DescriptorDecodes` | src/mdb_v8.c:2754-2946 | For any memory, one turn comes to exactly what the item calls for: its name and value, nothing, a mark of what could not be read, or the end of the loop |
| `PropertyLayouts.DecodingInvertsLayout` | src/mdb_v8.c:2754-2946 | If each turn comes to what its item calls for, then the first n turns deliver exactly the fields among the first n items, and report exactly what these give reason for |
| `PropertyLayouts.DecodeLaidOut` | src/mdb_v8.c:2754-2948 | For both layouts and both indexing rules, from details words, descriptor arrays and the encoded set of untagged fields, readable or not: one callback per field whose name and value can be read, in order, with these, a double exactly if the field is in the set; fails exactly if a callback does or a field is too far behind the last slot; and each flag is reported exactly if some item gives reason for it |
| `PropertyLayouts.DetailsDecode` | src/v8dbg.h:82-86 | Masking and shifting a details word recovers field type and field index, whatever the other bits |
| `Bits.AndIsBitwise` | src/v8dbg.h:82-86 | The mask operation used on details words and bit vectors is the bitwise one |
| `DictProperties.ReadHeapDict` | src/mdb_v8.c:1825-1899 | For any callback: fails on unreadable dictionaries and entry sizes below two, and otherwise delivers the outcomes of its turns up to the first fatal one or the first callback that returns -1 |
| `DictProperties.DecodingInvertsDict` | src/mdb_v8.c:1853-1890 | Decoding a dictionary delivers exactly its live entries in table order, up to the first with a key that is no name, whatever their other words are |
| `DictProperties.DecodeDict` | src/mdb_v8.c:1831-1899 | With any callback: one call per live entry in order; fails exactly if a callback returns -1 or an entry is broken; bad values are reported exactly if there are any |
| `ClassTable.Table.FindCreate` | src/mdb_v8.c:1176-1206 | Finds the class or inserts it at its place in the sorted list |
| `ClassTable.Table.FieldCreate` | src/mdb_v8.c:1208-1236 | Inserts the field behind all fields whose offset is not larger, whatever the offsets |
| `ClassTable.InsertionsCommuteIff` | src/mdb_v8.c:1208-1236 | The order of two insertions makes no difference exactly if the offsets differ or the fields are the same |
| `ClassTable.EqualOffsetsKeepOrder` | src/mdb_v8.c:1208-1236 | Fields at equal offsets stay in the order of insertion |
| `ClassTable.KindIsVersionFreeIff` | src/mdb_v8.c:1296-1320 | The V8 version makes a difference to a field's type exactly for Map's `bit_field3` declared as SMI; fields declared `int` or `char` are kept as such |
| `ClassTable.Table.UpdateParent` | src/mdb_v8.c:1240-1264 | Recording a parent symbol yields the table for one symbol more |
| `ClassTable.Table.UpdateField` | src/mdb_v8.c:1271-1323 | Recording a field symbol, with offset and type, yields the table for one symbol more |
| `ClassTable.Table.ComputeOffsets` | src/mdb_v8.c:1392-1419 | Computes start and end of a class after its ancestors, without disturbing others |
| `ClassTable.Table.ParentEnd` | src/mdb_v8.c:1392-1419 | The parent's end, computed on demand; recursion ends on acyclic parents |
| `ClassTable.Table.ComputeAllOffsets` | src/mdb_v8.c:762-772 | Every class starts at its parent's end and ends after its last field; the assertions hold |
| `ClassTable.Table.Configure` | src/mdb_v8.c:1135-1160 | For symbols in any order: the class list is strictly sorted without duplicates and each field list is sorted by offset, with exactly what the symbols say |
| `ClassTable.EndIsAfterLargestOffset` | src/mdb_v8.c:1405-1418 | A class ends one word after the largest offset of its own fields, or where it starts if it has none |
| `ClassTable.TableIsUnique` | src/mdb_v8.c:1176-1264 | The set of symbols determines the table, so their order does not matter |
| `ClassTable.AcyclicIsRanked` | src/mdb_v8.c:1392-1419 | The canonical table of acyclic symbols meets what the offset pass needs: every parent is in the table, and no class is its own ancestor |
| `ClassTable.OffsetsAreRankFree` | src/mdb_v8.c:1392-1419 | Start and end of a class do not depend on the ranks that show that there are no cycles |
| `ClassTable.Autoconfigure` | src/mdb_v8.c:749-772 | Both passes, for symbols in any order: the class list that the symbols call for, with starts and ends |
| `ClassTable.FinalTableIsUnique` | src/mdb_v8.c:749-772 | The final table, with starts and ends, depends on the set of symbols alone |
| `ClassTable.FinalTableIsExact` | src/mdb_v8.c:1392-1419 | In the final table each class starts where its parent ends, or at 0, and ends a word after its largest own offset, or where it starts |
| `LineTable.Search` | src/mdb_v8_function.c:490-509 | The binary search terminates, reads only inside the table, and yields one plus the number of entries below the position, or out of range |
| `LineTable.DefinitionLocation` | src/mdb_v8_function.c:422-515 | The answer for every combination of unknown position, missing, unreadable, empty and usable table |
| `LineTable.ScanLines` | src/mdb_v8.c:3331-3345 | The scan yields one plus the number of newlines up to and including each position, if it gets there |
| `LineTable.BelowCountsNewlines` | src/mdb_v8.c:3270-3283 | Table entries below a position are the newlines before it |
| `LineTable.LookupAgreesWithScan` | src/mdb_v8.c:3331-3345 | Lookup and scan agree at every position that is not a newline and differ by one at newlines |
| `LineTable.EncodingKeepsOrder` | src/mdb_v8_function.c:485-489 | Comparing encoded positions is comparing positions |
| `LineTable.TableLineIsScannedLine` | src/mdb_v8_function.c:490-509 | For every token the lookup in V8's table finds the line that scanning the text finds |
| `ArrayIteration.ReadPage` | src/mdb_v8_subr.c:99-106 | A page is read completely or not at all |
| `ArrayIteration.VisitPage` | src/mdb_v8_subr.c:108-113 | The callbacks for one page, up to the first non-zero result |
| `ArrayIteration.IterElements` | src/mdb_v8_subr.c:74-119 | Paged iteration visits what element-by-element iteration of the reachable elements visits, with its result, or -1 at the first unreadable page |
| `ArrayIteration.CompleteIff` | src/mdb_v8_subr.c:87-118 | On readable arrays: in order, once each, and complete exactly unless length > 1 and length % 1024 = 1 |
| `ArrayIteration.LastElementIsMissed` | src/mdb_v8_subr.c:87-118 | Element 1024 of an array of 1025 elements is never visited |
| `ArrayIteration.UnreadablePageStops` | src/mdb_v8_subr.c:99-106 | An unreadable page ends the iteration with -1 after all elements before it |
| `ArrayIteration.IterOneStopsAtLength` | src/mdb_v8_array.c:115-133 | The inner callback stops at the JSArray's own length or at the first non-zero result |
| `ArrayIteration.IterArray` | src/mdb_v8_array.c:135-152 | JSArray iteration is what `ArrayIterated` says for every image: the elements before the first unreadable page, the last reachable element and the array's length; read errors are dropped |
| `ArrayIteration.ArrayIsSeenWhole` | src/mdb_v8_array.c:115-152 | For every image the result is 0, what is seen is in order and once each, and a JSArray is seen whole exactly if every page it needs is readable and it is not a full FixedArray of the lengths above |
| `ArrayIteration.ReadErrorIsDropped` | src/mdb_v8_array.c:135-152 | A JSArray of 2048 elements whose second page is missing: 1024 elements are seen and the result is 0 |
| `ArrayIteration.PrefixReachesIff` | src/mdb_v8_subr.c:97-106 | The pages read from the start reach element m exactly if each page up to it is readable |
| `ScopeInfos.Skip` | src/mdb_v8_function.c:965-1001 | The loop over kinds arrives at the start of the region of the kind sought |
| `ScopeInfos.IterVars` | src/mdb_v8_function.c:945-1020 | Calls back for the variables of one kind in order, stops at the first non-zero result, and with -1 before an index outside the array |
| `ScopeInfos.RegionsAreDisjointAndOrdered` | src/mdb_v8_function.c:959-1001 | The regions of the kinds do not overlap and are in the order of the table, with only the stack locals' metadata between them |
| `ScopeInfos.NamesInOrder` | src/mdb_v8_function.c:1003-1020 | On any array: the names of the region numbered from 0, as many as there are, and -1 exactly if the array is too short |
| `ScopeInfos.IterationInvertsLayout` | src/mdb_v8_function.c:945-1020 | Iterating a kind of a laid-out ScopeInfo yields exactly its list of names with indices 0..n-1 |
| `ScopeInfos.VarValueIsExactIff` | src/mdb_v8_function.c:690-704 | A variable number yields its slot, or an error if there is none, exactly when the 32-bit sum does not wrap around |
| `ScopeInfos.WrappedIndexReadsFixedSlot` | src/mdb_v8_function.c:690-704 | Variable 0xFFFFFFFF of a context without variables is given the value of slot 3 |
| `ScopeInfos.ClosureBindings` | src/mdb_v8.c:5876-5911 | Context local k is printed with the value of context slot NCOMMON + k, up to the end of a context that is too short |

## Left out

- JSString.Write: after how many readable characters the read error comes depends on how the string is cut into chunks, and is not stated.
- JSString.HeapStringPrintsItsText: states the fitting case; ropes that do not fit are printed as `Ropes.Printed` says, which is not always a clean truncation (`Ropes.SecondHalfAfterMarker`, `Ropes.MarkerIsCutShort`).
- JSString.SliceIsSubstring: slices of cons, sliced and external strings print a message in the source and have no text here.
- StoredStrings.WriteStored: a slice has the width of its parent, and external strings are Node's one-byte ones whose first character is ASCII, as the writer requires.
- JoinStreams.RunSchedule: that Node sends an event for all that arrives, and asks again after a pause, is not part of this model; after an end or a first error no `_read` is delivered. While a source's `read()` runs, only that source can get rows or end. Join keys are integers that stand for numbers or for strings that are no numerals.
- FindRefs.FindReferences: a maximum depth of 0 is excluded; the source compares the depth with -1 then, so nothing bounds its recursion. The words found by one scan are collected before any is followed, which makes no difference because the callback never stops the scan.
- FindObjects.FindAll: what `jsobj_properties()` reports about an object is a parameter, so the two results are independent; addresses that overlap in the ranges given are filed once for each range.
- ReferenceIndex.SortGroups: ties are left in the order of an insertion sort.
- Properties.FastProperties: the reads, the elements, the numeric properties and the version checks of `jsobj_properties()` come before this loop and are not modelled; the arrays and the layout that it works on are parameters.
- DictProperties.ReadHeapDict: names are not cut at the size of a buffer.
- LineTable.Search: the empty table is excluded; `jsfunc_lineno()` would start with an upper bound below zero.
- ClassTable.Table.Configure: symbols are given already parsed and differ; buffers that cut long names, negative offsets, memory failures, and enumeration, type and frame-type symbols are not modelled. Fields of one class at one offset, and classes with several parents, are excluded, because the table then depends on the order of the symbols (`ClassTable.InsertionsCommuteIff`).
- ClassTable.Autoconfigure: cycles of parents are excluded; the source's recursion does not end on them. The constants computed from the classes afterwards are not modelled.
- WhatIs.OwnerIsFound: subtraction below address zero does not wrap around.
- Tracing output (`JSSTR_VERBOSE`, debug and verbose modes) and warnings.
- Grouping of functions (`findjsobjects_jsfunc`).
- Allocation failure, and the balancing of libavl trees.
- Reading of stacks, contexts' fixed slots, bound functions, dates, regular expressions and typed arrays, printing of objects, command parsing and the debugger's own interface: mostly direct field reads or output formats.
- The symbol and constant tables of particular V8 versions, which are data.

# valkey-json in Dafny

valkey-json keeps a JSON document as a tree of nodes. This project models, in Dafny 4.11, how the
module reads and prints that tree, persists it, addresses it by path, updates it and caches printed
fragments of it, together with two vendored libraries it carries. The proofs are about those models;
file and line references are to the repository.

`dafny verify dfyconfig.toml` checks everything.

## How the project is laid out

Every module is one file. Code that the repository writes as loops over buffers and fields is
written that way here: a method, proved against a function that says what it computes. What the
code is for is then proved about the functions.

* **Text.** `Bytes`, `Bits` (shifts, ors and masks as arithmetic), `Errors`, `Decimal` (the integer
  printer and reader), `Numerals` (decimal numerals by their places), `Utf8`, `Escape` (string
  escaping and its inverse).
* **Lexer and parser.** `Lexer` is the pushdown lexer one byte at a time; `LexerMachine` is
  `jsonsl_feed` with its state array and its two fast scanners, and refines it. `Parser` has the
  callbacks that build the tree on a second stack; `ParserMachine` is `CreateNodeFromJSON`.
  `Numbers`, `Strings` and `Documents` write JSON out as a grammar and prove that every text of it is
  read as what it means; `Refusals` and `Faults` say with which error every other byte is answered,
  between the tokens and inside them. `RoundTrip` proves that parsing undoes printing where there is
  room, `Printed` that what is printed is in the grammar, which takes doubles into the round trip,
  `Overflow` what happens where there is no room, and `PrintParse` says it of the machines as they
  run. `TwoStacks` proves
  that lexer and tree builder stay in step on every text, `Stops` at which bytes the source goes
  wrong, `Nesting` that the callbacks are well nested, `Ledger` that each node is kept, freed or
  leaked once, `Leakage` which are leaked, `ContextReuse` what one parse can do to the next.
* **Trees.** `Nodes` has the tree and dictionaries as lists; `Serializer` the explicit-stack walk;
  `Printer` the JSON printer on it, and `Layout` what indentation is; `Preorder`, `Rdb` and `Resp`
  the two other writers, and the loader that rebuilds a tree from a flat stream; `Streams` the
  grammar of those streams.
* **Containers.** `Splices` says what array operations compute, `Capacity` how arrays grow,
  `Containers` does both in place.
* **Paths and commands.** `Path` and `PathMachine` are the tokenizer, `PathGrammar` the grammar of
  paths, `Resolve` the resolver and the lens laws of writing by path. `Commands` defines the commands
  as steps on a document and its cache entries, `Laws` says what they do in terms of what paths
  denote, and `Server` runs them on a key, with the cache in memory.
* **Cache.** `Cache` is the cache of a document as a list; `CacheHeap` is cache.c with its pointers
  and counters. `Coherence` proves that the cache never shows, over whole runs; `Service` says the
  same of the commands as they run in memory. `Stale` says when the commands outside that scope keep
  the cache coherent, `Spellings` which texts of paths are outside it, and both where the cache does
  show; `Crash` is a run that ends in a null pointer.
* **Vendored algorithms.** `Heap` and `PriorityQueues` (the binary heap with a hole, the vector, the
  queue), `Quoting` (quoting and splitting of command lines) and `Words` (the grammar of such lines).

## What the code does that one might not expect

Each of these is proved, with an input where the code falls short and, where a condition can be
stated, the condition under which it does not.

* The node stack has a slot for each lexer level, but an open object takes two, and nothing checks.
  `{"":{"":{}}}` is within four levels and writes behind the stack (`Overflow.NestedOverflows`). A
  printed tree parses if and only if both stacks have room for it, and which of the two ends it comes
  to otherwise is said as well (`Overflow.ParsePrintExactly`); for texts in general
  `Stops.OverflowExactly` names the byte.
* A document such as `{},[]` makes the tree builder set a list in a dictionary as if it were a pair:
  the first word of the node is read as the address of its key (`Stops.ObjectThenList`). A text does
  that if and only if its first value is an object and a later byte completes another top-level value
  that can be read and is not false or zero (`Stops.ConfusedExactly`).
* False and zero have a first word of zero, which `Node_DictSetKeyVal` takes for a null key and
  refuses. Nobody looks at its answer, so `{},0` and a space is accepted as `{}`, and the node is
  leaked (`Leakage.ZeroLeaked`); the double -0.0 has its sign bit set and is taken for a pair. Every
  text leaks as many nodes as such values end behind its first object, and no others
  (`Leakage.LeakedExactly`).
* A parse that fails inside a string leaves an escape count behind in the shared context. It spoils
  a later document if and only if an empty string closes in that slot, and then the document counts
  as incomplete (`ContextReuse.ReuseExactly`, `ContextReuse.FailureSpoilsNext`).
* Escaped printing writes every byte above 0x7f as `\u00XX`, so strings that are not ASCII come back
  re-encoded; and a double that prints without fraction and exponent comes back as an integer. The
  round trip is the identity if and only if neither occurs (`Printed.PrintedReturnsSame`).
* A text that begins with a scalar is read in brackets and is then the first element of the list, so
  `1,2` is accepted as 1 (`Documents.ScalarIsFirst`).
* The lexer is more lenient than ECMA-404: in a list a string needs no comma in front of it, a comma
  behind the document is let through, and so are bytes from 0x14 on in strings, digits behind -0, an
  exponent behind a bare point and a point behind an exponent. `Refusals.RefusedExactly` and
  `Faults.Breaks` have the places.
* STRAPPEND, ARRPOP and the deletion of an array element leave stale entries. The conditions are
  exact: nothing cached at or above the string (`Stale.StrAppendCoherent`); nothing at or above the
  array, and every entry below it still true of the shorter array (`Stale.PopCoherent`); the entries
  that the clearing keeps still true (`Stale.DelElementCoherent`). `Stale.PopStale` and
  `Stale.DelElementStale` are runs where it shows.
* A value that is read by a path with an index from the end, with a leading zero in an index, or with
  an identifier in brackets is cached under a text that the canonical path of the value does not
  clear. A text that parses is safe to GET by if and only if its cache key is the rendering of its
  steps and none counts from the end
  (`Spellings.SafeExactly`, `Spellings.UnsafeSpellings`).
* `isCachableOptions` compares `(!spacestr || *spacestr)` with 0, so a null space string is not
  cachable (`Commands.CachableIsCompact` is about those options that are).
* The recency links of the cache fall apart into pieces, because `pluckEntry` moves `newest` and
  `oldest` against the links. What holds is that a link leads to an entry touched earlier. A cache
  that is full by bytes can have no `oldest`, and then adding a value purges a null pointer, and only
  then (`CacheHeap.LruCache.AddValue`, and `Crash.CrashingRun` for a run of commands that comes to
  it); a cache full by count always has one. One eviction per added value does
  not keep `numBytes` below `maxBytes`.
* `Node_ArrayDelRange` with an index behind the end deletes the last element
  (`Splices.DeleteBehindEnd`); with one further from the end than the length it works before its
  buffer, since the maximum with 0 is taken of an unsigned sum (`Containers.NodeArray.DelRange`).
* A path of more than 1024 steps writes behind its array, and an empty path text has no parent
  (`Commands.UndefinedExactly`).
* An item of unknown type makes `ObjectTypeRdbLoad` loop for ever, because its switch has no default
  (`Rdb.NeverEnds`). A dictionary in the stream drops an entry that is false or zero instead of a pair
  (`Rdb.ZeroDropped`), and takes other nodes for pairs. It ends, with defined behaviour, if and only
  if no such type is read and no such node is handed to a dictionary (`Rdb.EndsExactly`); types are
  compared after truncation to 32 bits.
* DEL of the default path deletes the key and replies 0, because the reply counts arguments
  (`Server.JsonKey.Del`).
* STRAPPEND of a value that is no string replies with an error and does not leave: it goes on to
  append from the node as if it were one.
* The documentation of ARRTRIM says that a `start` below 0 counts as 0; the code first counts it from
  the end, and the model follows the code (`Containers.NodeArray.Trim`).

## Model

| member | source | states |
|---|---|---|
| Decimal.PrintInt | deps/ValkeyModuleSDK/vkmutil/sds.c:429-458 | The buffer printer leaves exactly the decimal text of any int64, with a sign where there is one, and a closing NUL; digits are filled backwards and reversed in place. |
| Decimal.ReverseInPlace | deps/ValkeyModuleSDK/vkmutil/sds.c:448-456 | The two meeting indices reverse the filled part of the buffer and nothing else. |
| Decimal.ReadIntText | src/json_object.c:128-141 | Reading undoes printing on every 64-bit integer, the smallest included. |
| Decimal.LeadingDigit | deps/ValkeyModuleSDK/vkmutil/sds.c:429-458 | Only zero prints with a leading zero, which the lexer would refuse. |
| Numerals.SignedRead | src/json_object.c:128-141 | An integer token, as `strtoll` and the checks on it read it: the sum of its digits by their places, if 64 bits hold it; for every run of digits. |
| Utf8.DecodeEncode | deps/jsonsl/jsonsl.c:1255-1276 | What the UTF-8 writer emits for a code point, a strict decoder of section 3 of RFC 3629 reads as that code point, with its length. |
| Utf8.DecodedIsEncoded | deps/jsonsl/jsonsl.c:1255-1276 | Whatever such a decoder reads as a scalar value begins with what the writer emits for it: there is no other sequence. |
| Utf8.Latin1Identity | src/json_object.c:294-304 | Re-encoding each byte as a code point leaves a string alone exactly if it is ASCII. |
| Utf8.Latin1Injective | src/json_object.c:294-304 | Re-encoding loses nothing: different strings stay different. |
| Escape.SerializeString | src/json_object.c:278-313 | The printer with its pending span of simple bytes appends the quotes and the escape of each byte, in order, for every byte string. |
| Escape.EscapedForm | src/json_object.c:268-313 | What is written for each of the 256 bytes, with escaping and without, in byte values. |
| Escape.UnescapeEscape | src/json_object.c:278-313 | Unescaping what the printer put between the quotes succeeds on every byte string and gives each byte as a UTF-8 code point, or the bytes themselves without escaping. |
| Escape.UnescapeEscapeIdentity | src/json_object.c:278-313 | It is the identity if and only if escaping is off or all bytes are below 0x80. |
| Escape.UnescapeInto | deps/jsonsl/jsonsl.c:1320-1440 | The moving output pointer stays within a buffer as long as the input; the output is that of the recursive reader, and an error gives length 0. |
| Escape.WriteUtf8 | deps/jsonsl/jsonsl.c:1255-1276 | The four branches with their shifts and ors put the UTF-8 form of the code point at the pointer, and touch nothing before it. |
| Escape.UnescapeBmp | deps/jsonsl/jsonsl.c:1345-1439 | Any spelling of the four-digit escape of a scalar value of the basic plane gives its UTF-8 form. |
| Escape.UnescapePair | deps/jsonsl/jsonsl.c:1397-1411 | The surrogate pair that section 2.1 of RFC 2781 assigns to a value above U+FFFF gives the UTF-8 form of that value. |
| Escape.LoneSurrogate | deps/jsonsl/jsonsl.c:1397-1439 | A surrogate alone is an invalid code point. |
| Lexer.Step | deps/jsonsl/jsonsl.c:306-741 | One byte keeps the frame stack valid and the escape slots as many, moves the position by one, and never fails with the code for success. |
| Lexer.RunConcat | deps/jsonsl/jsonsl.c:219-741 | The byte-at-a-time lexer over a concatenation is the run over the first part and then over the second, up to the first error or stop; `LexerMachine.Jsonsl.FeedAll` says it of the feed calls. |
| LexerMachine.Jsonsl.Reset | deps/jsonsl/jsonsl.c:101-157 | A lexer that is reset, over a state array earlier runs may have used, is in the start state of the byte-at-a-time lexer with the escape counts they left. |
| LexerMachine.Jsonsl.StrFastParse | deps/jsonsl/jsonsl.c:159-187 | The string scanner stops where the slow lexer would first do something, and leaves the run as the slow lexer does. |
| LexerMachine.Jsonsl.NumFastParse | deps/jsonsl/jsonsl.c:189-216 | The number scanner has added the digits it skips to the 64-bit sum, as the slow lexer does. |
| LexerMachine.Jsonsl.Push | deps/jsonsl/jsonsl.c:229-245 | A pushed frame and its callback, or the error when the levels are used up. |
| LexerMachine.Jsonsl.OpenInObject | deps/jsonsl/jsonsl.c:543-570 | A quote in an object opens a key or a value by the parity of the elements, with the errors for a missing colon and a stray token. |
| LexerMachine.Jsonsl.SpecialByte | deps/jsonsl/jsonsl.c:394-516 | Barewords: numbers, literals byte by byte, and where they end. |
| LexerMachine.Jsonsl.Token | deps/jsonsl/jsonsl.c:600-694 | Structural tokens: separators, and containers that open and close. |
| LexerMachine.Jsonsl.Feed | deps/jsonsl/jsonsl.c:219-741 | The feed loop over the state array, with both fast scanners and a callback that may stop it, refines the byte-at-a-time lexer on every buffer. |
| LexerMachine.Jsonsl.FeedAll | deps/jsonsl/jsonsl.c:219-741 | Consecutive feed calls on the pieces of a text, until one ends the run, leave callbacks, registers, counts and error as the byte-at-a-time lexer on the whole text. |
| LexerMachine.ChunkIndependence | deps/jsonsl/jsonsl.c:219-741 | Two lexers in the same state, fed one text cut in two ways, end alike, though each scans ahead within its own pieces. |
| ParserMachine.RunMatches | src/json_object.c:48-172 | Building the tree from inside the callbacks is the same as building it byte by byte beside the lexer. |
| ParserMachine.CreateNodeFromJSON | src/json_object.c:174-249 | The entry point, in a context that earlier parses may have used, with its white space loop and scalar wrapping: on every text it gives the tree or the error that the two stacks come to from those escape counts, and leaves the counts they leave; dropped values included. What that is for every JSON text, and for every text that goes wrong, is said by `Documents.DocumentMeans`, `Refusals.RefusedExactly` and `Faults`. |
| ParserMachine.CreateContext | src/json_object.c:434-456 | A new context has no escape counts. |
| Parser.ParseConcat | src/json_object.c:194-206 | Lexer and tree builder together read a concatenation as its parts, one after the other. |
| Numbers.ReadNumeral | deps/jsonsl/jsonsl.c:394-516 | Every numeral, with or without fraction and exponent, is read up to the byte behind it; an integer part has left its digits, summed modulo 2^64, in the register. |
| Numbers.ParseNumeral | src/json_object.c:112-141 | Wherever a value may stand: a numeral without fraction and exponent becomes the integer its digits make, if 64 bits hold it; any other becomes what `strtod` says; one that is refused stops the parse as an invalid number. |
| Strings.UnescapeChars | deps/jsonsl/jsonsl.c:1320-1440 | The text of characters, plain or escaped in any way, unescapes to what they stand for, in front of any other text. |
| Strings.ReadStringy | deps/jsonsl/jsonsl.c:530-587 | Every such string or key is lexed to its closing quote, and the callback makes of it what it stands for. |
| Documents.ReadDoc | src/json_object.c:48-172 | Wherever a value may stand: the text of every JSON value, with any white space and escapes, leaves the lexer behind it and its meaning in place; or the parse has stopped at an invalid number. |
| Documents.DocumentMeans | src/json_object.c:174-249 | Every JSON text by the grammar, with white space on both sides, where both stacks have room, is read as what it means; it is refused, as an invalid number, if and only if one of its numbers is. |
| Documents.NumberMeans | src/json_object.c:112-141 | So for a number alone and for one in brackets: without fraction and exponent the integer if 64 bits hold it, otherwise what `strtod` makes of the token, and the error for an invalid number where there is nothing. |
| Documents.ScalarIsFirst | src/json_object.c:178-249 | For every text whose first byte opens no container: it has the error that the text in brackets has, or is the first element of that list. |
| Documents.ObjectKeepsLast | src/object.c:368-386 | Of an object's entries with one key the last one counts, and the keys of the result are distinct. |
| Refusals.ByteRefused | deps/jsonsl/jsonsl.c:518-694 | A document cut at any place between its tokens: a byte that the table of places and bytes refuses ends the parse with the error that the table gives, whatever follows. |
| Refusals.RefusedExactly | deps/jsonsl/jsonsl.c:518-694 | With a level to spare, the bytes in the table are the only ones that are refused there. |
| Refusals.CutIncomplete | src/json_object.c:208-249 | A text that ends there counts as incomplete. |
| Refusals.BlankNotFound | src/json_object.c:208-249 | White space alone holds no value. |
| Refusals.BehindRootRefused | deps/jsonsl/jsonsl.c:518-694 | Behind a list or an object nothing but white space and a comma is let through, and each other byte has its error. |
| Faults.NumberRefused | deps/jsonsl/jsonsl.c:394-516 | Every number that breaks off, or goes on with a byte that cannot stand there, is invalid, whatever follows; among them a leading zero, a bare minus, and a point or an exponent without digits. |
| Faults.WordRefused | deps/jsonsl/jsonsl.c:394-516 | So is every `true`, `false` or `null` that is cut short or misspelt, each with its error. |
| Faults.StringRefused | deps/jsonsl/jsonsl.c:530-597 | In every string and key a byte below 0x14, and a backslash before a byte that is no escape letter, have their errors. |
| Faults.EscapeRefused | deps/jsonsl/jsonsl.c:1320-1440 | A string or key with a `\u` that has no four hex digits, that is a low half without a high one, or a high half without its low one, is refused at its closing quote, each with its error. |
| RoundTrip.ParseString | deps/jsonsl/jsonsl.c:530-587 | A printed string is lexed to its closing quote and becomes one string node with the recoded bytes. |
| RoundTrip.ParseInteger | src/json_object.c:115-141 | A printed integer is lexed and read back as that integer. |
| RoundTrip.ParseTree | src/json_object.c:48-172 | Wherever a value may stand, the printed text of a tree leaves the lexer past it and the tree, recoded, placed in its parent. |
| RoundTrip.ParsePrint | src/json_object.c:174-249 | Parsing the printed text of a well-formed tree without doubles, compact or padded with white space, where both stacks have room, gives that tree, strings recoded. |
| RoundTrip.ParsePrintIdentity | src/json_object.c:402-431 | It gives the same tree if and only if escaping is off or every string and key is ASCII. |
| Printed.PrintedText | src/json_object.c:278-400 | What is printed, compact or laid out, is the text of a JSON document of the grammar, byte for byte: numbers, strings and white space spelled out. For every tree whose doubles are printed as numerals. |
| Printed.PrintedReturns | src/json_object.c:174-431 | Parsing it, where both stacks have room: the tree comes back, strings recoded, each double as its numeral is read; so a double printed without fraction and exponent comes back as an integer. |
| Printed.PrintedReturnsSame | src/json_object.c:174-431 | The very same tree comes back if and only if each double in it is printed with a fraction or an exponent and `strtod` reads its bits back, and escaping is off or all text is ASCII. |
| Overflow.TreeOutgrows | src/json_object.c:23-27 | Wherever a value may stand, the printed text of one that needs more frames or slots than are left ends in the error for levels or behind the node stack, whichever shortage a walk through the value in preorder meets first. |
| Overflow.ShortExactly | src/json_object.c:23-27 | The walk meets no shortage if and only if the value's depth in frames and its depth in slots both fit; and the one it meets is of a stack that does not suffice. |
| Overflow.ParsePrintExactly | src/json_object.c:174-249 | For every such tree and number of levels, with no room assumed: the text comes back as the tree if and only if both stacks have room; else it is refused, or the parser writes behind the node stack, whichever shortage the walk meets first. |
| Overflow.LevelsDoNotProtect | src/json_object.c:434-456 | For every number of levels from 4 on a document within the levels writes behind the node stack. |
| Overflow.NestedOverflows | src/json_object.c:23-27 | With four levels, `{"":{"":{}}}` does. |
| PrintParse.PrintThenParse | src/json_object.c:174-431 | The printer and then the parser as they run, in a context earlier parses may have used: the same outcome, unless an empty string closes in a slot with leftover escapes. |
| PrintParse.PrintThenParseAnew | src/json_object.c:174-456 | In a new context the tree comes back if and only if both stacks have room. |
| TwoStacks.StepInStep | src/json_object.c:48-172 | Every byte keeps the node stack at one node per open container and one pending pair where an object awaits a value, nodes well formed; behind a first object it takes a node for a pair exactly at another top-level value that is not false or zero. |
| TwoStacks.BytesInvariant | deps/jsonsl/jsonsl.c:219-741 | The two stacks stay in step, and the nodes well formed, over every text up to the first error. |
| TwoStacks.ResultWellFormed | src/json_object.c:194-249 | Whatever text is accepted, the result is well formed and the node stack held the root alone. |
| Stops.InStepCount | src/json_object.c:23-32 | While the stacks are in step, the frames alone give the number of nodes: one for each open container, one for each key that awaits its value, and the document's first container, which stays. |
| Stops.StopsExactly | src/json_object.c:48-172 | Behind the opening bracket, a byte writes behind the node stack if and only if it pushes a node when the frames say the stack is full; it makes the builder take a value for a pair if and only if it completes another top-level value behind an object, and that value is read and is not false or zero. |
| Stops.OverflowExactly | src/json_object.c:174-249 | A text writes behind the node stack if and only if one of its bytes does so after a prefix that parses. |
| Stops.ConfusedExactly | src/json_object.c:143-172 | A text makes the builder take a value for a pair if and only if the document's first value is an object and some byte, after a prefix that parses, completes another top-level value that is read and is not false or zero. |
| Stops.ObjectThenList | src/json_object.c:143-172 | `{},[]` does it. |
| Stops.ObjectThenZero | src/json_object.c:143-172 | `{},0` and a space is accepted as the empty object, and its last byte drops the zero. |
| Nesting.StepCloses | deps/jsonsl/jsonsl.c:219-741 | The callbacks of one byte close the frames that are open, innermost first and with their own kind, or open one. |
| Nesting.RunNested | deps/jsonsl/jsonsl.c:219-741 | Through every buffer, whatever the callbacks answer, the PUSH and POP calls stay well nested with matching kinds, and those open are the frames. |
| Nesting.TextNested | deps/jsonsl/jsonsl.c:219-741 | So for every text from the start; back at level 0 every PUSH has had its POP. |
| Ledger.EnterAccounted | src/object.c:368-386 | With a name for each node: setting an entry takes in the names of the new one and frees exactly those of the one with the same key. |
| Ledger.JoinAccounted | src/json_object.c:148-171 | Setting a finished tree in its place, or dropping it where its key is null, loses no name and doubles none. |
| Ledger.EachNodeOnce | src/json_object.c:174-249 | For every text that the model follows to its end, accepted or refused: each node the parser made is in the result, freed or leaked, and once; the result has as many names as nodes. |
| Leakage.ByteLeaked | src/object.c:368-371 | Behind the opening bracket, a byte leaks one node if it completes false or zero at the top level behind a first object, and none otherwise. |
| Leakage.LeakedExactly | src/json_object.c:143-172 | For every text: as many nodes are leaked as there are such bytes after prefixes that parse; so none if and only if there is no such byte. |
| Leakage.ZeroLeaked | src/json_object.c:143-172 | On `{},0` and a space, which is accepted, a node is leaked. |
| ContextReuse.ReuseExactly | src/json_object.c:81-96 | For every text and whatever escape counts earlier parses left: the result is that in a new context, unless an empty string closes in a slot with leftover escapes, after a prefix that parses; then it is the error for an incomplete text. |
| ContextReuse.LeavesOneSlot | deps/jsonsl/jsonsl.c:125-134 | Every parse leaves the escape counts as they were but for one slot, and a successful one all of them. |
| ContextReuse.FailedParseLeavesEscape | deps/jsonsl/jsonsl.c:589-597 | The text `["\q` is refused in every context, and leaves the slot of its string one escape higher than it was. |
| ContextReuse.EmptyStringNeedsCleanSlot | src/json_object.c:81-96 | The list of one empty string parses if and only if the slot its string uses is clean; otherwise it counts as incomplete. |
| ContextReuse.FailureSpoilsNext | src/json_object.c:458-465 | In one context, `["\q` is refused and then `[""]` is, which a new context accepts. |
| Serializer.NodeSerializer | src/object.c:552-619 | The explicit-stack walk ends on every tree and has made exactly the recursive sequence of masked callbacks, for any context and callbacks. |
| Serializer.ChildPushed | src/object.c:592-602 | Pushing a child emits the delimiter first, except before the first child, and owes the rest as before. |
| Serializer.ChildPushedWork | src/object.c:552-619 | The measure that makes the walk end. |
| Printer.FoldCalls | src/json_object.c:315-400 | The printing callbacks append the text of the tree and restore the depth. |
| Printer.SerializeNodeToJSON | src/json_object.c:402-431 | The printer appends the recursive text of the tree; `Layout.PrintIsLayout` and `Printed.PrintedText` say what that is. |
| Layout.PrintIsLayout | src/json_object.c:264-400 | For every tree and format: the printed text is the compact text laid out by a scan that knows strings and brackets only, with a new line, as many copies of the indentation as brackets are open, and the space behind a colon. |
| Layout.CopiesExactly | src/json_object.c:264-266 | So many copies of the indentation, by length and by slices. |
| Preorder.FoldFlatten | src/object.c:552-619 | A walk with a Begin callback that appends leaves the nodes' headers in preorder. |
| Preorder.Write | src/object.c:552-619 | The same of the machine. |
| Rdb.ObjectTypeRdbSave | src/object_type.c:134-177 | Saving appends the tree's items in preorder. |
| Rdb.ObjectTypeRdbLoad | src/object_type.c:22-132 | The loop with its two vectors, run for a given number of turns, is that many turns of the state machine; an item of unknown type leaves a turn without effect, and a dictionary drops a node with a null key. |
| Rdb.EndsExactly | src/object_type.c:36-124 | The loader ends if and only if every type item it reads, taken modulo 2^32, is one of the eight, and no dictionary is handed a node that is neither a pair nor false nor zero; then within three turns an item and one, with the tree, the rest of the stream or the error that structural recursion gives. At such a node its behaviour is undefined; at an unknown type it is in a state that a turn does not change. |
| Rdb.UnknownExactly | src/object_type.c:40-88 | Structural recursion meets an unknown type exactly when one is among the type items read. |
| Rdb.UndefinedExactly | src/object.c:368-371 | Structural recursion becomes undefined exactly when such a node is among those handed to dictionaries. |
| Rdb.NeverEnds | src/object_type.c:36-88 | On the stream of the one item 3 the loader does not end after any number of turns. |
| Rdb.ZeroDropped | src/object_type.c:93-110 | A dictionary of one entry, which is the integer 0, is loaded as the empty dictionary. |
| Rdb.NullEntry | src/object_type.c:93-110 | A dictionary whose entry is a null pointer: undefined. |
| Rdb.LoadEncode | src/object_type.c:22-177 | Loading what was saved, with any stream behind it, gives the same tree, entries in order, and consumes exactly the saved items. |
| Rdb.EncodePrefixFree | src/object_type.c:134-177 | No two trees have encodings of which one begins the other. |
| Rdb.SaveThenLoad | src/object_type.c:22-177 | The two machines, one after the other, on any well-formed tree and with any stream behind it: the loader ends, with that tree and that stream. |
| Streams.LoadStored | src/object_type.c:22-132 | Every complete value in a stream, saved by this code or not, is loaded as what it means, whatever follows it: the types by number with any upper half, booleans by their first byte, keys up to a NUL, entries one after the other; or it is undefined, where a dictionary takes a node for a pair. |
| Streams.HeadFails | src/object_type.c:36-88 | What ends a load at the head of a stream: no type, a type that is none of the eight numbers, or an item of another kind than the type asks for. |
| Streams.SavedItems | src/object_type.c:134-177 | The saver writes the items of such a stream, type numbers, "1" and "0" included. |
| Resp.ObjectTypeToRespReply | src/object_type.c:183-226 | The reply writer emits the headers of all nodes in preorder. |
| Resp.ReadReplies | src/object_type.c:183-226 | A client that reads by the array headers reads one value, the one the tree stands for, and nothing is left: for every tree. |
| Nodes.Find | src/object.c:326-335 | The position of the first entry with the key, or the length. |
| Nodes.SetKeyValRepresents | src/object.c:345-386 | Setting a key in the list of entries is updating the finite map it stands for. |
| Nodes.SetKeyValDistinct | src/object.c:345-386 | Keys stay distinct and every other entry keeps its place. |
| Nodes.DelKeyRepresents | src/object.c:388-409 | Deleting with the last entry filling the hole removes the key from the map, and one entry from the list, and nothing else. |
| Nodes.FindRepresents | src/object.c:411-424 | Looking a key up agrees with the map. |
| Nodes.RepresentsUnique | src/object.c:326-335 | A list of entries stands for one map only. |
| Splices.DeleteInserted | src/object.c:161-235 | Deleting what was inserted, at the place where it went, restores the array. |
| Splices.InsertDeleted | src/object.c:161-235 | Inserting what was deleted restores it, too. |
| Splices.DeleteBehindEnd | src/object.c:161-181 | An index at or behind the end deletes the last element. |
| Splices.TwoDeletions | src/valkeyjson.c:1845-1861 | ARRTRIM's two deletions keep exactly what lies between. |
| Splices.InsertedAt | src/object.c:213-235 | For every index: where the new elements stand, in slices. |
| Splices.DeletedFrom | src/object.c:161-180 | For every index within the array and every count: which elements are left, in slices. |
| Capacity.SmearIsOnes | src/object.c:194-203 | The five shifts and ors set every bit below the highest. |
| Capacity.RoundUpLeast | src/object.c:194-203 | Smearing rounds up to the least power of two, for every size up to 2^31. |
| Capacity.NextCapGrows | src/object.c:183-211 | Growth in 32 bits: the least power of two up to a chunk, then the next multiple of a chunk strictly above; nothing wraps around. |
| Capacity.NextCapFixed | src/object.c:205-208 | A power of two is its own capacity if and only if it is at most a chunk. |
| Containers.NodeArray.MakeRoomFor | src/object.c:183-211 | The buffer grows by that policy and the elements stay. |
| Containers.NodeArray.Insert | src/object.c:213-235 | The elements of the other array go in at the clipped index, in order, and it is emptied. |
| Containers.NodeArray.DelRange | src/object.c:161-181 | Exactly the clipped range goes; with an index further from the end than the length, or a range whose end overflows, the source leaves its buffer, and exactly then. |
| Containers.NodeArray.Append | src/object.c:237-243 | One element behind all others. |
| Containers.NodeArray.Prepend | src/object.c:245-249 | One element before all others. |
| Containers.NodeArray.Set | src/object.c:251-261 | One element replaced, or refused out of range. |
| Containers.NodeArray.Item | src/object.c:263-273 | One element read, or none out of range. |
| Containers.NodeArray.Trim | src/valkeyjson.c:1818-1861 | The elements from the normalised start to the stop inclusive are left; none if start is behind stop or the end. |
| Containers.NodeDict.FindEntry | src/object.c:326-335 | The search loop finds the first entry with the key. |
| Containers.NodeDict.InsertEntry | src/object.c:337-343 | An entry more, in a buffer that doubles by at most 2^20. |
| Containers.NodeDict.Set | src/object.c:345-366 | Replace in place or append. |
| Containers.NodeDict.SetEntry | src/object.c:368-386 | The same with a ready entry. |
| Containers.NodeDict.Del | src/object.c:388-409 | The entry goes, the last one fills the hole. |
| Containers.NodeDict.Get | src/object.c:411-424 | The value of the first entry with the key. |
| Containers.RunRepresents | src/object.c:326-424 | Through every run of sets and deletions the entries stand for the map that the same operations make. |
| Containers.RunFromEmpty | src/object.c:326-424 | From an empty dictionary: keys distinct and lookups right, after any run. |
| Containers.RunInPlace | src/object.c:326-424 | The run in one dictionary object ends with those entries, within its capacity. |
| Path.ParseRender | src/json_path.c:20-215 | Parsing the rendering of a list of steps gives that list. |
| Path.Parseable | src/json_path.c:20-215 | The lists that some text parses to are exactly the root alone and the lists of steps that can be rendered. |
| Path.ScanRenderable | src/json_path.c:20-215 | From any state of the tokenizer, on any text, the steps it yields can be rendered. |
| Path.LeadingDot | src/json_path.c:31-39 | A dot before a text parses if and only if the text does and starts with an identifier, and it gives the same steps. |
| PathGrammar.ParsesExactly | src/json_path.c:20-215 | A text is a path of these steps if and only if it is spelled so: names of letters, digits, `$` and `_`, by byte ranges, with or without a dot; keys in either quote; indices by the places of their digits, reduced to 32 bits; or the dot alone for the root. |
| PathGrammar.SpellingParses | src/json_path.c:20-215 | Every spelling but the dot alone parses as what it means, and as nothing else. |
| PathGrammar.NameAlone | src/json_path.c:119-141 | Every name is a path of one key. |
| PathGrammar.FaultReported | src/json_path.c:36-215 | Behind any spelling, a text that goes wrong is reported with the message for the byte that does not belong, and with its offset. |
| PathMachine.SearchPath.Append | src/path.c:97-104 | A step more, in an array that doubles up to 1024; beyond, the write would be outside. |
| PathMachine.Consume | src/json_path.c:30-190 | One turn of the switch: the state, the token and what remains to be read. |
| PathMachine.TokenizePath | src/json_path.c:20-223 | The loop yields the steps, the leading-dot flag and the error with its offset, for every text of at most 1024 steps; `PathGrammar` says what that is for every text. |
| Resolve.SearchPathFind | src/path.c:59-71 | The node a path denotes, or the error; each step is that of `Resolve.IndexFinds`, `Resolve.KeyFinds` and `Resolve.OtherStepsFail`. |
| Resolve.SearchPathFindEx | src/path.c:73-91 | The same, with the container of the last step tried and the level that fails. |
| Resolve.IndexFinds | src/path.c:20-57 | An index finds the element from the front or, below zero, from the end; beyond either there is the error for indices: for every array and index. |
| Resolve.KeyFinds | src/path.c:20-57 | A key finds what the map that the dictionary stands for maps it to, or there is the error for keys. |
| Resolve.OtherStepsFail | src/path.c:20-57 | Every other pair of step and node is a type error. |
| Resolve.LocatedUnique | src/path.c:73-91 | Only one answer is possible, and the level is the first that fails. |
| Resolve.CanPutLocated | src/valkeyjson.c:618-633 | A value can be set exactly if the search succeeds or only the last key is missing. |
| Resolve.StepGet | src/object.c:251-261 | After setting a child, a step reads the new value if and only if it leads to the same place, else what it read before. |
| Resolve.PutGet | src/valkeyjson.c:635-672 | After SET the path reads the new value. |
| Resolve.GetPut | src/valkeyjson.c:635-672 | Setting what is there changes nothing. |
| Resolve.PutPut | src/valkeyjson.c:635-672 | The last SET wins. |
| Resolve.PutApart | src/valkeyjson.c:635-672 | Every path whose resolved steps part from the updated one reads, or fails, as before. |
| Resolve.PutBelow | src/valkeyjson.c:635-672 | Paths below read the new value. |
| Resolve.PutAbove | src/valkeyjson.c:635-672 | Paths above read the old subtree with the update in it. |
| Resolve.PutThroughParent | src/valkeyjson.c:652-672 | Writing through the parent that the search returned is writing by the whole path. |
| Resolve.PutWellFormed | src/valkeyjson.c:635-672 | A well-formed document stays well formed. |
| Cache.ClearedExactly | src/cache.c:141-158 | With no NUL in the paths, exactly the entries whose path begins the cleared one, or the other way round, are cleared. |
| Cache.StrNEqualExactly | src/cache.c:141-158 | `strncmp` as the comparison of paths: the same bytes all the way, or up to a NUL; for all bytes. |
| Cache.KeptExactly | src/cache.c:160-174 | Clearing drops those and no others. |
| Cache.LookupFinds | src/cache.c:89-112 | A lookup finds a value if and only if some entry's path matches, and then such an entry's. |
| Commands.CachableIsCompact | src/valkeyjson.c:781-785 | Options that count as cachable print compactly. |
| Commands.AddsExactly | src/valkeyjson.c:720-805 | A GET adds an entry exactly if it finds a non-trivial node, the options are cachable, the path has no entry and the text is long enough; it changes nothing else. |
| Commands.UndefinedExactly | src/valkeyjson.c:531-699 | The commands run into undefined behaviour exactly on paths with too many steps, and on the empty path where a parent is needed. |
| Laws.PathLength | src/path.c:97-104 | A spelling of up to 1024 steps is the path of these steps; a longer one is too long. |
| Laws.DelRemoves | src/valkeyjson.c:1070-1138 | DEL of what a path denotes, for every document: the container denotes the old map less the last key, or the old array less the one element, in slices; a key then is missing, every path apart from the container's denotes what it did, and the reply is 1 when the path is given. |
| Laws.DelElsewhere | src/valkeyjson.c:1070-1138 | DEL of the root, of a path that leads nowhere, and of one that does not parse. |
| Laws.SetPlaces | src/valkeyjson.c:531-699 | SET below the root, with NX, XX or neither: whether the value is written, by what the path and its container denote; then the path denotes the value, the container is the old one with it, and paths apart denote what they did; otherwise nothing changes, and the reply says why. |
| Laws.SetElsewhere | src/valkeyjson.c:531-699 | SET of the root, of a new key, and by a path that does not parse. |
| Laws.NumWrites | src/valkeyjson.c:1150-1284 | NUMINCRBY and NUMMULTBY, the result given: the number is replaced, and the reply is the result's compact text. |
| Laws.InsertWrites | src/valkeyjson.c:1386-1490 | ARRINSERT: the new elements stand between those in front of the place and those behind it, in slices; an index out of range is refused; the reply is the new length. |
| Laws.AppendWrites | src/valkeyjson.c:1498-1586 | ARRAPPEND: the new elements stand behind the old ones. |
| Laws.TrimWrites | src/valkeyjson.c:1797-1872 | ARRTRIM: a run of elements is left, which are exactly those between the places that start and stop stand for. |
| Laws.StrAppendWrites | src/valkeyjson.c:1295-1375 | STRAPPEND: the two strings stand one behind the other, each cut at its first NUL and padded with NULs. |
| Laws.PopWrites | src/valkeyjson.c:1697-1784 | ARRPOP: the element at the place, or at the nearer end, goes, and its compact text is the reply. |
| Laws.GetPrints | src/valkeyjson.c:870-974 | GET prints what the path denotes, with the options given. |
| Laws.GetCaches | src/valkeyjson.c:720-805 | GET leaves a text in the cache exactly when it is of a string or a container, printed without any layout, with escaping and with a space string that is given and empty, long enough and not there yet: then the compact text, under the path without a leading dot. |
| Laws.NoTarget | src/valkeyjson.c:870-1872 | Commands whose target is not there, or whose path does not parse: nothing changes, and the reply. |
| Coherence.SpellingParses | src/valkeyjson.c:701-718 | A canonical spelling parses as its steps, and its cache key is their rendering. |
| Coherence.RenderPrefix | src/cache.c:141-158 | If the steps of one path begin another's, so do their texts. |
| Coherence.SurvivorUnrelated | src/cache.c:141-158 | An entry that survives a clearing is at a path that is not prefix-related. |
| Coherence.CommandCoherent | src/valkeyjson.c:701-805 | Each command in scope keeps every entry the text of what its path denotes, and replies as if nothing were cached. |
| Coherence.RunCoherent | src/valkeyjson.c:701-805 | Over every run of commands in scope, with evictions at any time, every reply is that of a server without a cache. |
| Stale.StrAppendCoherent | src/valkeyjson.c:1363-1370 | STRAPPEND leaves the cache coherent if and only if nothing at or above the string is cached. |
| Stale.PopCoherent | src/valkeyjson.c:1769-1779 | ARRPOP leaves the cache coherent if and only if nothing at or above the array is cached and every entry below it still reads its text in the shorter array. |
| Stale.PopHarmless | src/valkeyjson.c:1769-1779 | It does no harm if nothing at or above the array is cached, and nothing at or behind the element. |
| Stale.DelElementCoherent | src/valkeyjson.c:1109-1128 | DEL of an array element leaves it coherent if and only if every entry that the clearing keeps still reads its text. |
| Stale.DelElementHarmless | src/valkeyjson.c:1109-1128 | It does no harm if nothing at or behind the element is cached. |
| Stale.PopStale | src/valkeyjson.c:1769-1779 | A run with ARRPOP whose second GET is stale. |
| Stale.DelElementStale | src/valkeyjson.c:1109-1128 | A run with DEL of an array element whose second GET is stale. |
| Spellings.LongerText | src/json_path.c:20-215 | If one text that parses begins another, the other's steps are more, or as many with another last key: so spellings of the same way do not begin one another. |
| Spellings.UnfaithfulStale | src/valkeyjson.c:701-718 | For every text that parses, but whose cache key is not the rendering of its steps or which counts from the end, there are a document and a write in scope between two GETs by the text after which the second is stale. |
| Spellings.SafeExactly | src/valkeyjson.c:701-718 | GETs by a text, among any commands in scope and on any document, never show the cache if and only if the text does not parse, or its cache key is the rendering of its steps and no index in them counts from the end: for every text. |
| Spellings.UnsafeSpellings | src/valkeyjson.c:701-718 | `[00]`, `["a"]` and `[-1]` are not safe. |
| CacheHeap.LruCache.Pluck | src/cache.c:10-29 | The neighbours link to each other; links stay mutual inverses among live entries, and lead to earlier touched ones. |
| CacheHeap.LruCache.Touch | src/cache.c:31-43 | The entry becomes the newest, with nothing before it, and there is an oldest. |
| CacheHeap.LruCache.Purge | src/cache.c:56-87 | The entry leaves the links, the counters and its parent's list, where it is found. |
| CacheHeap.LruCache.GetValue | src/cache.c:89-112 | The value of the first matching entry, which becomes the newest; shape and counters hold. |
| CacheHeap.LruCache.AddValue | src/cache.c:114-139 | The new entry heads its document's list; a full cache has given up its oldest entry and no other; shape, counters and the limit on entries hold. It purges a null pointer if and only if the value is long enough and the cache is full by bytes without an oldest entry; then, and for a short value, nothing changes. |
| CacheHeap.LruCache.ClearValues | src/cache.c:160-174 | Exactly the entries that need not be cleared stay, in their order; other documents keep theirs. |
| CacheHeap.AddGetClear | src/cache.c:89-174 | Unless the addition purges a null pointer, what is added is found, and gone once cleared. |
| Server.NodeFromJSONPath | src/valkeyjson.c:87-117 | Tokenizer and search together, with the root as a special case. |
| Server.JsonKey.GetSerializedJson | src/valkeyjson.c:720-779 | Lookup, or print and add: the entries and the text are those of the definition, perhaps after an eviction. It purges a null pointer if and only if the definition adds an entry and there is nothing to purge in a full cache. |
| Server.JsonKey.Get | src/valkeyjson.c:870-974 | GET of one path, with any options, is the defined step, perhaps after an eviction; hits, trivial values, short texts and failing paths are served in every state of the cache, and the crash has the same exact condition; `Laws.GetPrints` says what that does. |
| Server.JsonKey.Set | src/valkeyjson.c:531-699 | SET is the defined step, in every branch: new keys, roots, dictionaries, arrays, NX and XX; `Laws.SetPlaces` says what that does. |
| Server.JsonKey.NumIncrBy | src/valkeyjson.c:1150-1284 | NUMINCRBY is the defined step, once the number is computed; `Laws.NumWrites` says what that does. |
| Server.JsonKey.ArrInsert | src/valkeyjson.c:1386-1490 | ARRINSERT is the defined step; `Laws.InsertWrites` says what that does. |
| Server.JsonKey.ArrAppend | src/valkeyjson.c:1498-1586 | ARRAPPEND is the defined step; `Laws.AppendWrites` says what that does. |
| Server.JsonKey.ArrTrim | src/valkeyjson.c:1797-1876 | ARRTRIM is the defined step; `Laws.TrimWrites` says what that does. |
| Server.JsonKey.Del | src/valkeyjson.c:1070-1138 | DEL is the defined step: cache first, then the key, the entry or the element; the reply counts the given path only; `Laws.DelRemoves` says what that does. |
| Server.JsonKey.MaybeClearPathCache | src/valkeyjson.c:701-718 | The entries the path affects go. |
| Service.Serve | src/valkeyjson.c:701-805 | Commands in scope, run in memory with the cache and its evictions: every reply is that of a server that never caches, and all commands are served unless one is a GET that purges a null pointer; the run ends at that one. |
| Service.ServeAnew | src/valkeyjson.c:701-805 | The same from an empty cache with the given limits and an empty key, which is handed out with its document and a coherent cache. |
| Crash.CrashingRun | src/cache.c:114-124 | In a cache for four bytes of text: SET of `["a","bb"]`, GET of each element and SET of the first are served, and then the same GET purges a null pointer. |
| Heap.SiftUp | deps/ValkeyModuleSDK/vkmutil/heap.c:21-40 | The last element rises through the hole to its place: a heap, a permutation, nothing outside touched. |
| Heap.SiftDown | deps/ValkeyModuleSDK/vkmutil/heap.c:42-84 | An element sinks through the hole among the heaps below it. |
| Heap.MakeHeap | deps/ValkeyModuleSDK/vkmutil/heap.c:87-94 | Any range becomes a heap of the same elements. |
| Heap.HeapPush | deps/ValkeyModuleSDK/vkmutil/heap.c:97-99 | The last element joins the heap in front of it. |
| Heap.HeapPop | deps/ValkeyModuleSDK/vkmutil/heap.c:102-107 | A maximum of the range moves behind the heap of the others. |
| Heap.HeapMaximum | deps/ValkeyModuleSDK/vkmutil/heap.c:87-107 | The first element of a heap is a maximum, for every total preorder. |
| Heap.LargestNumber | deps/ValkeyModuleSDK/vkmutil/heap.c:87-107 | With numbers compared by their difference, a maximum is a number that no other exceeds. |
| PriorityQueues.Vector.Push | deps/ValkeyModuleSDK/vkmutil/vector.c:4-11 | One element more; a full vector doubles. |
| PriorityQueues.Vector.PutAt | deps/ValkeyModuleSDK/vkmutil/vector.c:35-51 | One element written, the vector grown to it, new places zero. |
| PriorityQueues.Vector.Resize | deps/ValkeyModuleSDK/vkmutil/vector.c:53-66 | Elements and new zero places up to the new capacity; the vector is valid afterwards if and only if the capacity holds its elements, and then they stay. |
| PriorityQueues.Vector.Pop | deps/ValkeyModuleSDK/vkmutil/vector.c:24-33 | The last element, or nothing. |
| PriorityQueues.Vector.Get | deps/ValkeyModuleSDK/vkmutil/vector.c:13-21 | An element, or nothing out of bounds. |
| PriorityQueues.PriorityQueue.Push | deps/ValkeyModuleSDK/vkmutil/priority_queue.c:19-23 | The multiset gains the element; the heap order holds. |
| PriorityQueues.PriorityQueue.Pop | deps/ValkeyModuleSDK/vkmutil/priority_queue.c:25-31 | The multiset loses a maximum; an empty queue stays. |
| PriorityQueues.PriorityQueue.Top | deps/ValkeyModuleSDK/vkmutil/priority_queue.c:15-17 | A maximum, unless the queue is empty. |
| PriorityQueues.Run | deps/ValkeyModuleSDK/vkmutil/priority_queue.c:15-31 | Over every run of pushes and pops the top is a maximum of what was pushed and not popped. |
| Quoting.SdsCatRepr | deps/ValkeyModuleSDK/vkmutil/sds.c:858-881 | The quoted form is appended. |
| Quoting.ReprForm | deps/ValkeyModuleSDK/vkmutil/sds.c:858-881 | What is written for each of the 256 bytes, in byte values. |
| Quoting.SdsSplitArgs | deps/ValkeyModuleSDK/vkmutil/sds.c:925-1032 | The two nested loops split a line as the recursive reader does, unbalanced quotes included; `Words.SplitsExactly` says what that is. |
| Words.SplitsExactly | deps/ValkeyModuleSDK/vkmutil/sds.c:925-1032 | A line splits into these words if and only if it is spelled so: bytes of their own, double quotes with escapes, single quotes with `\'`, each quote closed before white space or the end. |
| Words.LineSplits | deps/ValkeyModuleSDK/vkmutil/sds.c:925-1032 | Every line that is spelled so splits into what its words stand for. |
| Words.UnclosedFails | deps/ValkeyModuleSDK/vkmutil/sds.c:925-1032 | A quote that is never closed, or closed before a byte that is no white space, behind any words: no result. |
| Words.PlainWords | deps/ValkeyModuleSDK/vkmutil/sds.c:925-1032 | Words without quotes, white space and NUL, with blanks between and around, come back. |
| Quoting.ReprPrintable | deps/ValkeyModuleSDK/vkmutil/sds.c:851-853 | A quoted form is printable throughout. |
| Quoting.SplitJoined | deps/ValkeyModuleSDK/vkmutil/sds.c:920-924 | Splitting quoted strings joined by spaces gives back the list, whatever bytes the strings hold. |
| Quoting.QuoteThenSplit | deps/ValkeyModuleSDK/vkmutil/sds.c:858-1032 | The same of the two functions as they run. |

## Left out

Stated weaker than the source, and why:

- Parser.CreateNode: error positions in messages are not modelled; errors carry their code alone. A write behind the node stack and a non-pair used as a pair end the run with an outcome of their own: what the source makes of the memory it then reads or writes is not modelled, nor what becomes of the text behind such a byte.
- RoundTrip.ParsePrint: doubles are excluded; `Printed.PrintedReturns` has them. Strings printed with escaping off must hold only bytes that the lexer takes in a string.
- Printed.PrintedReturns: `strtod` and `%.17g` are opaque, and every double in the tree is taken to be printed as a numeral, which `inf` and `nan` are not.
- Layout.PrintIsLayout: `%.17g` is taken to print something for every double, and no brackets, quotes, commas or colons.
- Documents.DocumentMeans: where a stack has no room, `Stops` and `Overflow` say what happens.
- Refusals.RefusedExactly: behind a number or a word that white space does not follow, only bytes that end it are covered; the bytes inside it are those of `Faults`.
- LexerMachine.Jsonsl.Feed: the UESCAPE callback, which the module leaves unset, and the position kept on a container's POP are not modelled. Element counts are unbounded.
- Resolve.Put: documents are values, so writing through a parent pointer is writing at the parent's path; aliasing between documents and the freeing of replaced nodes are not modelled outside the parser, which `Ledger` covers.
- Server.JsonKey.Set: new values come in parsed, and the reply of a command is not told apart from its error text beyond the kind of error.
- Server.JsonKey.ArrInsert: the array is replaced by the spliced sequence at its path; the splice in the buffer is `Containers.NodeArray.Insert`.
- CacheHeap.LruCache.Touch: recency order is claimed only along the links, since the source does not keep a single recency list.
- Path.ParseRender: keys that contain both kinds of quotes or a NUL have no spelling in the path syntax, and none is claimed for them; indices beyond 64 bits are reduced modulo 2^32 where the source overflows a signed integer.
- Capacity.NextCapGrows: sizes above 2^31, where the rounding wraps to 0, are excluded.
- Ledger.EachNodeOnce: speaks of nodes, not of bytes or of the strings in them, and not of texts that end with those outcomes.
- Rdb.ObjectTypeRdbLoad: the number of turns is a parameter, since the loop need not end; nodes that a dictionary drops are leaked, which is not counted.
- Rdb.EndsExactly: a dictionary that is handed a null pointer, or a node other than a pair whose first word is not zero, is undefined behaviour here, and what the source goes on to do with it is not modelled. Arrays and dictionaries are taken to have non-null buffers, of capacity 0 too.
- Commands.ExecStrAppend: the value appended is a string. For another value the source replies with an error and then appends from a node that is no string.
- Stale.PopCoherent: assumes that `%.17g` prints at least one character for every double.
- Service.Serve: what the process does after purging a null pointer is not modelled; the run ends there.

Not modelled:

- Valkey module API, replies on the wire, key opening, replication, AOF, command registration: foreign calls.
- Multi-path GET, MGET, TYPE, STRLEN, OBJKEYS, ARRINDEX and the other reading commands: they add only easy members. Multi-path GET hands its accumulated buffer to the cache and is outside the coherence claim.
- NUMINCRBY and NUMMULTBY arithmetic on doubles; doubles are opaque bit patterns everywhere.
- Allocation failure, the layout of sds strings, `Node_Free` on heap pointers.
- jsonsl's JSONPointer matching, metrics, and its NaN, Infinity and wide-character builds.
- What the lexer's leniency makes of the texts it lets through beyond the grammar: their errors are covered, their meaning is not, apart from the documents that `Stops` names; so a further value behind a list, which is appended to it.
- cmdparse.c, util.c, strings.c, periodic.c, and the rest of sds.c.

# Coconut verification model

A Dafny model of the parts of the coconut networking library where the state lives: the
frame protocol and its read loop, decorator chains, the socket write queue, Redis
tickets, deferred calls, and the third-party code these stand on: libjson (text, nodes,
streams, memory pools), kbuffer and the MPFD multipart parser. `dafny verify
dfyconfig.toml` checks everything, with the limits that file sets.

How it is built:

- Code that changes things step by step is a `class` or a `method` with the loops of the
  source. Its contract equates the new state with a function of the old one
  (`Progress`, `Normal`, `Drained`, `Step`, ...), and the theorems are lemmas about those
  functions. A method that reads like its function is the link between the two; the
  lemma beside it says what the function means.
- A loop that runs past a string's terminator is a result of its own (`Overrun`,
  `Overran`), not a precondition. Exceptions are `None`, `Stopped` or `Threw`.
- libjson is modelled as it is compiled (JSONOptions.h): `JSON_SAFE`, `JSON_REF_COUNT`,
  `JSON_ESCAPE_WRITES` and `JSON_COMMENTS` are on; `JSON_UNICODE`, `JSON_STRICT`,
  `JSON_PREPARSE`, `JSON_DEBUG` and `JSON_LIBRARY` are off. Text is a sequence of byte
  characters; a number is its text.
- What another thread, the operating system or a remote peer does is an argument or an
  event: chunks read, bytes a `write` accepted, addresses the system allocator offers,
  replies that arrive, which thread runs next.

## Modules

| module | contents |
|---|---|
| `Text`, `Escape`, `Scanner`, `Normaliser`, `Reader`, `Numbers` | strings, the escape codec, the separator scanner, white space removal and the automaton it is, number text |
| `JsonNode`, `JsonWriter`, `JsonRoundTrip`, `JsonNormal`, `JsonTransparency`, `JsonPadding`, `JsonPieces` | the lazy parser, the writer, and the proof that they undo each other in every state of fetching and with white space added; and what is made of any other text |
| `JsonStream` | cutting documents out of chunks |
| `NodeOps`, `NodeHeap`, `NodeStore` | the operations on trees that are never shared; reference-counted, copy-on-write nodes; `NodeStore.Store` against those operations |
| `MemPool`, `BucketPool`, `BucketRuns` | the pool allocator with its fallback chain, the size-bucketed pools with `reallocate`, and runs of requests to them |
| `Transport`, `Frames`, `Chains` | buffers and words, receiving frames, sending them through decorator chains |
| `KBuffer`, `EventSocket` | the chunk list and the socket that writes from it |
| `Redis`, `RedisRuns`, `Deferred` | protocols as steps: tickets and their fate over whole runs, and calls posted between threads |
| `Multipart`, `Base64` | the form parser and the base64 codec |

## Where the code does less than it is meant to

Each of these has a lemma. Most say for every input when the code meets the property and
when it does not; the two that only show an input say so.

- A read that ends inside a header word loses the bytes of that word, as `readInt32`
  consumes them before it throws (`Frames.InSyncIffAligned`, `Frames.TwoReadsDeliver`).
- The read loop does what it is meant to iff it meets no length field below the header's
  size (`Frames.AgreesIffRegular`). At a length of zero it hands on the same frame for ever
  (`Frames.SpinsIffZero`), at 1 to 15 it goes on inside the header
  (`Frames.ShortLengthGoesOnInside`), and where the signed difference wraps it takes a
  frame for complete that is not (`Frames.OverreadsIff`).
- `writeFrame` on a chain with mixed kinds of parent pointers sends the old frame's
  header inside the new frame (`Chains.WrappedPayloadIff`).
- Data written while a connect is in progress is queued twice
  (`EventSocket.WriteAddsOnceIff`), and a graceful close asked for then is forgotten
  iff nothing is queued (`EventSocket.GracefulCloseIff`).
- `push_back` on a container that was not fetched puts the child in front of the parsed
  ones, and the writer does not show it (`JsonTransparency.PushBackAppends`).
- The stream splitter does not know escaped quotes (`JsonStream.CutWholeIffDocument`; one
  input in `JsonStream.EscapedQuoteCutsDocument`).
- The separator scanner does not notice a bracket that closes the wrong kind (one input in
  `Scanner.WrongKindIsNotNoticed`; `Scanner.BracketLex` says where it is right).
- `pop_back(name)` is not copy-on-write: another handle changes iff it leads to the cell
  (`NodeStore.SharedPopShowsIff`). A container pushed into itself is never freed
  (`NodeStore.PushedIntoItselfIff`). A node assigned from its own child reads a handle
  that is gone iff its cell was not shared (`NodeStore.AssignedFromOwnChildIff`).
- Reserved Redis commands are not taken off the list when they are sent; only the null
  replies on a lost connection keep them from being sent again
  (`Redis.ResentIffReserved`).
- The multipart parser drops empty fields, cuts content at a NUL, throws on a name that
  ends in `filename=` and may use a field it has let go when content arrives in pieces
  (`Multipart.KeptIsAllIff`, `Multipart.NameComesBackIff`,
  `Multipart.SplitContentCrashesIff`).
- kbuffer offers nothing iff its first chunk holds nothing unread, whatever is behind it
  (`KBuffer.EmptyChunkHidesIff`).

## Model

| member | source | states |
|---|---|---|
| `Text.CStr` | 3rdParty/src/libjson/Source/JSONWorker.cpp:538-543 | a scan over `c_str()` sees the longest NUL-free prefix, all of the string iff it has no NUL |
| `Escape.UnfixString` | 3rdParty/src/libjson/Source/JSONWorker.cpp:538-585 | the escaping loop computes `Unfix`, the function the round trip is about |
| `Escape.FixString` | 3rdParty/src/libjson/Source/JSONWorker.cpp:452-484 | the decoding loop computes `Unescaped` (or runs over the end) and flags exactly the texts with a backslash |
| `Escape.EscapeCharRoundTrip` | 3rdParty/src/libjson/Source/JSONWorker.cpp:381-450 | each escaped byte is read back as that byte, whatever follows |
| `Escape.UTF8RoundTrip` | 3rdParty/src/libjson/Source/JSONWorker.cpp:332-344 | `\u00XX` written for a byte is read back as that byte |
| `Escape.HexRoundTrip` | 3rdParty/src/libjson/Source/JSONWorker.cpp:347-371 | the byte arithmetic of `Hex` inverts the digits of `toUTF8` |
| `Escape.EscapeRoundTrip` | 3rdParty/src/libjson/Source/JSONWorker.cpp:381-585 | decoding an escaped string gives the string up to its first NUL, also with its quotes already normalised |
| `Escape.LosslessIffNulFree` | 3rdParty/src/libjson/Source/JSONWorker.cpp:538-585 | the codec is lossless on a byte string iff it holds no NUL |
| `Escape.EscapedIsPrintable` | 3rdParty/src/libjson/Source/JSONWorker.cpp:538-585 | the escaped form is printable ASCII in which every quote is behind a backslash |
| `Escape.FlagIsLossless` | 3rdParty/src/libjson/Source/JSONWorker.cpp:452-484 | re-escaping with the flag set while decoding decodes to the same string |
| `Escape.PlainIsItself` | 3rdParty/src/libjson/Source/JSONWorker.cpp:452-484 | a text without backslashes decodes to itself |
| `Escape.HexReads` | 3rdParty/src/libjson/Source/JSONWorker.cpp:347-371 | two hexadecimal digits of either case are read as their value |
| `Escape.HexEscapes` | 3rdParty/src/libjson/Source/JSONWorker.cpp:332-371 | `\uXXXX` stands for its last two digits and `\xXX` for both, wherever they stand |
| `Escape.OctalEscape` | 3rdParty/src/libjson/Source/JSONWorker.cpp:373-379 | three octal digits stand for the lowest byte of their value |
| `Escape.ShortEscape` | 3rdParty/src/libjson/Source/JSONWorker.cpp:381-450 | what every other escape stands for; one without a meaning stands for its character |
| `Scanner.QuoteLoop` | 3rdParty/src/libjson/Source/JSONWorker.cpp:96-101 | the quote loop stops at the quote `SkipQuote` names, or fails iff there is none before the terminator |
| `Scanner.BracketLoop` | 3rdParty/src/libjson/Source/JSONWorker.cpp:103-117 | the one-kind bracket loop stops where its count reaches zero, or fails iff it never does |
| `Scanner.FindNextRelevant` | 3rdParty/src/libjson/Source/JSONWorker.cpp:119-145 | the scan computes `Find`, the function the next rows are about |
| `Scanner.QuoteLex` | 3rdParty/src/libjson/Source/JSONWorker.cpp:96-101 | the skipped stretch is exactly what a lexer with a bracket stack reads inside the string |
| `Scanner.BracketLex` | 3rdParty/src/libjson/Source/JSONWorker.cpp:103-117 | counting one kind suffices: on text whose brackets close their own kind the count reaches zero exactly where the stack empties |
| `Scanner.SkipOneLex` | 3rdParty/src/libjson/Source/JSONWorker.cpp:119-145 | an opening bracket or quote is skipped to the next place outside all of them; nothing is skipped iff there is no such place |
| `Scanner.FindIsFirstOutside` | 3rdParty/src/libjson/Source/JSONWorker.cpp:96-145 | `FindNextRelevant` returns the first occurrence outside every bracket and string, or nothing iff there is none before the region closes |
| `Scanner.WrongKindIsNotNoticed` | 3rdParty/src/libjson/Source/JSONWorker.cpp:96-145 | a wrong closing bracket goes unnoticed: an input on which the scanner and the lexer differ |
| `Normaliser.QuotedLoop` | 3rdParty/src/libjson/Source/JSONWorker.cpp:207-223 | the string loop of the normaliser computes `Quoted`, which copies the string and turns `\"` into a marked quote |
| `Normaliser.RemoveWhiteSpace` | 3rdParty/src/libjson/Source/JSONWorker.cpp:170-240 | white space, comments and strings are processed as `Normal` says, including the run over the end of an unclosed comment |
| `Reader.NormalReads` | 3rdParty/src/libjson/Source/JSONWorker.cpp:170-240 | the loops read any text as an automaton of seven places does, character by character, comments and early ends included |
| `Reader.PaddedNormalises` | 3rdParty/src/libjson/Source/JSONWorker.cpp:183-188 | blanks, tabs and line ends anywhere outside strings and comments leave the normalised text as it is |
| `JsonPadding.WhiteSpaceDoesNotMatter` | 3rdParty/src/libjson/Source/JSONWorker.cpp:11-93 | and so what is parsed from any text |
| `JsonPadding.PaddedTextParses` | 3rdParty/src/libjson/Source/JSONWorker.cpp:11-240 | the text of a tree, padded anywhere outside its strings, parses to the same tree |
| `JsonPadding.CommentInFront` | 3rdParty/src/libjson/Source/JSONWorker.cpp:170-240 | a block comment in front of any text makes no difference to what is parsed |
| `JsonPadding.WhiteBetween` | 3rdParty/src/libjson/Source/JSONWorker.cpp:183-188 | white space between two texts is dropped |
| `JsonPadding.WhiteInside` | 3rdParty/src/libjson/Source/JSONWorker.cpp:207-223 | white space inside a string stays |
| `Numbers.IsNumeric` | 3rdParty/src/libjson/Source/NumberToString.h:156-285 | the pointer-and-flags scan decides the language `Numeric` |
| `Numbers.NumericChars` | 3rdParty/src/libjson/Source/NumberToString.h:156-285 | every accepted number is made of digits, signs, letters and dots only, so it survives the normaliser and the scanner |
| `Numbers.NumericIff` | 3rdParty/src/libjson/Source/NumberToString.h:156-285 | the accepted texts are exactly those of a grammar: sign or digit, digits, fraction, exponent; hexadecimal and octal behind a zero |
| `Numbers.Itoa` | 3rdParty/src/libjson/Source/NumberToString.h:49-84 | for each width the buffer is never left at the low end and the text is the decimal form, sign included |
| `Numbers.Uitoa` | 3rdParty/src/libjson/Source/NumberToString.h:86-104 | the same for unsigned integers of each width |
| `Numbers.FillDigits` | 3rdParty/src/libjson/Source/NumberToString.h:49-104 | the backwards loop writes exactly the digits and ends one before them |
| `Numbers.DigitsLength` | 3rdParty/src/libjson/Source/NumberToString.h:12-36 | a number below ten to the k has at most k digits, which bounds the buffer |
| `Numbers.Widest` | 3rdParty/src/libjson/Source/NumberToString.h:12-36 | the widest value of each width fits the digits its buffer has room for |
| `Numbers.DecimalIsNumeric` | 3rdParty/src/libjson/Source/NumberToString.h:49-285 | the text of every integer denotes that integer and is accepted by `isNumeric` |
| `JsonNode.KindIff` | 3rdParty/src/libjson/Source/internalJSONNode.cpp:83-153 | which kind any value is given, name and flag included; what is no kind is null, and what is left to fetch |
| `JsonNode.CommentsAreSkipped` | 3rdParty/src/libjson/Source/JSONWorker.cpp:594-630 | comments in front of a name or value are skipped one after the other; one that is not closed runs over the end |
| `JsonNode.DoArrayLoop` | 3rdParty/src/libjson/Source/JSONWorker.cpp:633-667 | the element loop computes `DoArray`, with its early ends on a colon and on an overrun |
| `JsonNode.DoNodeLoop` | 3rdParty/src/libjson/Source/JSONWorker.cpp:671-693 | the member loop computes `DoNode`, with its early ends |
| `JsonNode.FetchAppends` | 3rdParty/src/libjson/Source/internalJSONNode.cpp:166-190 | fetching adds children behind those already there, each holding less text than the node did |
| `JsonNode.FetchShrinks` | 3rdParty/src/libjson/Source/internalJSONNode.cpp:234-256 | every child of a fetched node is smaller than the node, which is why `preparse` ends |
| `JsonPieces.ArrayIsItsElements` | 3rdParty/src/libjson/Source/JSONWorker.cpp:633-667 | any text in brackets is cut at exactly its outside commas, nothing lost; one child each, up to the first with an outside colon, where the array is given up |
| `JsonPieces.ObjectIsItsMembers` | 3rdParty/src/libjson/Source/JSONWorker.cpp:671-693 | any text in braces is cut at its outside colons and commas; one child each, given up where a colon is missing, read from outside the text where a name is |
| `JsonPieces.FetchedFromPieces` | 3rdParty/src/libjson/Source/internalJSONNode.cpp:166-190 | what fetching makes of them: the children behind those there, null if given up but with the children found by then |
| `JsonPieces.FetchedElse` | 3rdParty/src/libjson/Source/internalJSONNode.cpp:166-232 | fetching any other text of a container gives null; strings are decoded, numbers kept |
| `JsonWriter.WriteChildrenLoop` | 3rdParty/src/libjson/Source/JSONWriter.cpp:48-74 | the loop writes all children in order, separated by commas |
| `JsonWriter.ParseIff` | 3rdParty/src/libjson/Source/JSONWorker.cpp:11-93 | exactly the texts that, normalised and behind their comments, are in braces or brackets are parsed, to an unfetched, nameless node with that text |
| `JsonWriter.NothingToParse` | 3rdParty/src/libjson/Source/JSONWorker.cpp:11-93 | a text of which nothing is left runs over the end |
| `JsonRoundTrip.SkipFlat` | 3rdParty/src/libjson/Source/JSONWorker.cpp:103-117 | the bracket loop passes over every well-formed value with its count unchanged |
| `JsonRoundTrip.FindFlat` | 3rdParty/src/libjson/Source/JSONWorker.cpp:119-145 | the scanner passes over every well-formed value as a whole |
| `JsonRoundTrip.ArrayKidsFlat` | 3rdParty/src/libjson/Source/JSONWorker.cpp:633-667 | `DoArray` splits an array text at exactly the commas between its elements |
| `JsonRoundTrip.ObjectKidsFlat` | 3rdParty/src/libjson/Source/JSONWorker.cpp:671-693 | `DoNode` splits an object text at exactly its colons and commas and decodes the names |
| `JsonRoundTrip.NewInternalFlat` | 3rdParty/src/libjson/Source/internalJSONNode.cpp:83-153 | the constructor recognises the kind of every well-formed value and keeps its text |
| `JsonRoundTrip.NewElement` | 3rdParty/src/libjson/Source/JSONWorker.cpp:594-630 | `NewNode` on an element's text gives the nameless, unfetched node of that value |
| `JsonRoundTrip.NewMember` | 3rdParty/src/libjson/Source/JSONWorker.cpp:594-630 | on a member it gives the node with the decoded name, or runs over the end iff decoding the name does |
| `JsonRoundTrip.FetchArray` | 3rdParty/src/libjson/Source/internalJSONNode.cpp:184-190 | fetching a well-formed array gives exactly its elements, unfetched |
| `JsonRoundTrip.FetchObject` | 3rdParty/src/libjson/Source/internalJSONNode.cpp:176-182 | fetching a well-formed object gives exactly its members, unfetched |
| `JsonRoundTrip.PreparseFlat` | 3rdParty/src/libjson/Source/internalJSONNode.cpp:494-503 | fetching everything gives the tree the text stands for |
| `JsonNormal.NormalString` | 3rdParty/src/libjson/Source/JSONWorker.cpp:207-223 | a dumped string normalises back to the stored text: 0x01 and quotes change places |
| `JsonNormal.StoredString` | 3rdParty/src/libjson/Source/JSONWorker.cpp:538-585 | a written string normalises to a body that decodes to the string |
| `JsonNormal.NormalFlat` | 3rdParty/src/libjson/Source/JSONWriter.cpp:176-188 | the raw dump of any well-formed text normalises to that text |
| `JsonTransparency.RawIsWellFormed` | 3rdParty/src/libjson/Source/JSONWriter.cpp:173-217 | the text of any faithful tree, in any state of fetching, is well-formed |
| `JsonTransparency.NormalWrite` | 3rdParty/src/libjson/Source/JSONWriter.cpp:40-217 | what is written, dumped parts included, normalises to that text |
| `JsonTransparency.DecodeRawOf` | 3rdParty/src/libjson/Source/JSONWriter.cpp:173-217 | decoding it gives the tree that fetching everything would have given |
| `JsonTransparency.WriteThenParse` | 3rdParty/src/libjson/Source/JSONWorker.cpp:11-93 | parsing what was written gives the same tree for any mix of fetched and unfetched nodes; equal as `IsEqualTo` sees it iff root and array elements are nameless |
| `JsonTransparency.LazyIsTransparent` | 3rdParty/src/libjson/Source/internalJSONNode.cpp:234-256 | writing before any fetch and after fetching everything gives texts that parse to equal trees |
| `JsonTransparency.PreparsedIsFaithful` | 3rdParty/src/libjson/Source/internalJSONNode.cpp:494-503 | fetching everything keeps a tree faithful and leaves nothing to fetch |
| `JsonTransparency.DecodedIsFaithful` | 3rdParty/src/libjson/Source/internalJSONNode.cpp:83-153 | whatever is parsed from well-formed text is faithful |
| `JsonTransparency.SettersAreFaithful` | 3rdParty/src/libjson/Source/internalJSONNode.cpp:259-350 | the typed setters and `Nullify` give faithful nodes, numbers included |
| `JsonTransparency.SettersStore` | 3rdParty/src/libjson/Source/internalJSONNode.cpp:259-350 | after a setter the node shows the value given under its old name; the text of an integer denotes it |
| `JsonTransparency.EqualIffSameTree` | 3rdParty/src/libjson/Source/internalJSONNode.cpp:352-383 | `IsEqualTo` holds iff the two nodes show the same tree |
| `JsonTransparency.PushBackAppends` | 3rdParty/src/libjson/Source/internalJSONNode.cpp:402-415 | `push_back` appends iff the container was fetched or holds only copies of the child; before a fetch the writer does not show it |
| `JsonTransparency.ScalarIgnoresPush` | 3rdParty/src/libjson/Source/internalJSONNode.cpp:402-415 | what is no container, and only that, ignores a pushed child |
| `JsonStream.Stream.Parse` | 3rdParty/src/libjson/Source/JSONStream.cpp:88-107 | the recursive `parse` ends and hands on exactly the documents of `Split`, keeping the rest |
| `JsonStream.Stream.Push` | 3rdParty/src/libjson/Source/JSONStream.cpp:67-72 | a push splits the old buffer followed by the new bytes; a failed stream ignores it |
| `JsonStream.SplitConcat` | 3rdParty/src/libjson/Source/JSONStream.cpp:88-107 | splitting two pieces one after the other is splitting them together |
| `JsonStream.ChunksDoNotMatter` | 3rdParty/src/libjson/Source/JSONStream.cpp:34-107 | any chunking emits the same documents and leaves the same buffer |
| `JsonStream.SplitIsDone` | 3rdParty/src/libjson/Source/JSONStream.cpp:88-107 | the buffer a push leaves holds no further document |
| `JsonStream.SplitConserves` | 3rdParty/src/libjson/Source/JSONStream.cpp:88-107 | whatever the callback answers, documents handed on, what was passed over and the buffer left make up the text; only a refusal leaves a document in the buffer, never the one refused |
| `JsonStream.SplitSent` | 3rdParty/src/libjson/Source/JSONStream.cpp:74-107 | documents with filler between them are cut out exactly |
| `JsonStream.DocumentsArrive` | 3rdParty/src/libjson/Source/JSONStream.cpp:34-107 | the same through any chunks, in order |
| `JsonStream.FlatIsDocument` | 3rdParty/src/libjson/Source/JSONStream.cpp:74-85 | every well-formed array or object without escaped quotes is such a document |
| `JsonStream.CutWholeIffDocument` | 3rdParty/src/libjson/Source/JSONStream.cpp:74-107 | a bracketed text is cut out whole iff the lexer without escapes is outside strings at its last bracket |
| `JsonStream.EscapedQuoteCutsDocument` | 3rdParty/src/libjson/Source/JSONStream.cpp:34-40 | an object with an escaped quote that is cut inside its string |
| `NodeHeap.CountKeeps` | 3rdParty/src/libjson/Source/internalJSONNode.h:319-326 | changing a count changes that cell's surplus by as much and nothing else |
| `NodeHeap.FreeKeeps` | 3rdParty/src/libjson/Source/internalJSONNode.cpp:157-163 | freeing a cell at its last reference leaves a sound heap whose surplus is exactly its former children |
| `NodeHeap.OnlyWayIn` | 3rdParty/src/libjson/Source/internalJSONNode.h:399-410 | along a path of unshared cells the only entry into each cell is the one the path uses |
| `NodeHeap.ChangeKeeps` | 3rdParty/src/libjson/Source/JSONNode.h:837-843 | writing the last cell of such a path keeps the heap sound and rebuilds the trees along the path only |
| `NodeHeap.OneTreeChanges` | 3rdParty/src/libjson/Source/JSONNode.h:837-843 | of all handles only the one at the root of the path shows something else |
| `NodeHeap.ThinnedChain` | 3rdParty/src/libjson/Source/JSONNode.h:824-835 | destroying a handle elsewhere leaves the cells of a held path as they are |
| `NodeHeap.Reassigned` | 3rdParty/src/libjson/Source/JSONNode.h:731-740 | taking an entry out and putting another in its place is one replacement in the tree |
| `NodeStore.Store.IncRef` | 3rdParty/src/libjson/Source/internalJSONNode.h:319-326 | one more reference, and that is all |
| `NodeStore.Store.DecRef` | 3rdParty/src/libjson/Source/JSONNode.h:824-835 | exactly one reference less overall; cells are freed at zero and only then, children in turn, and no tree of a live cell changes |
| `NodeStore.Store.DecRefAll` | 3rdParty/src/libjson/Source/JSONChildren.cpp:73-79 | one reference less for each child handle destroyed |
| `NodeStore.Store.CopyInternal` | 3rdParty/src/libjson/Source/internalJSONNode.cpp:12-43 | a new cell with one reference and the same tree; no other count changes, although children are duplicated recursively |
| `NodeStore.Store.MakeUnique` | 3rdParty/src/libjson/Source/internalJSONNode.h:399-410 | a shared cell gives up one reference and is copied, an unshared one is kept; the tree is the same |
| `NodeStore.Store.Duplicate` | 3rdParty/src/libjson/Source/JSONNode.cpp:174-183 | a new unshared cell with the same tree |
| `NodeStore.Store.OwnRoot` | 3rdParty/src/libjson/Source/JSONNode.h:837-843 | the handle's cell becomes unshared and no handle shows anything else |
| `NodeStore.Store.OwnEntry` | 3rdParty/src/libjson/Source/JSONNode.h:837-843 | the same for a child handle, extending the path of unshared cells |
| `NodeStore.Store.Own` | 3rdParty/src/libjson/Source/JSONNode.cpp:203-208 | walking a path makes every cell on it unshared and changes no tree |
| `NodeStore.Store.Rewrite` | 3rdParty/src/libjson/Source/JSONNode.h:750-756 | writing the cell at the end changes the tree of this handle, at that place, and no other |
| `NodeStore.Store.Make` | 3rdParty/src/libjson/Source/JSONNode.h:598-606 | a new handle with a tree of its own |
| `NodeOps.ApplyIsMeant` | 3rdParty/src/libjson/Source/JSONNode.h:598-841 | after each operation, what every position of every handle shows: kind, text, name and children where it works, no change anywhere else |
| `NodeOps.AllowedIff` | 3rdParty/src/libjson/Source/JSONNode.h:598-841 | what a program may do: anything to a node it reaches, but type it as a container, put it into itself or merge it with a different one |
| `NodeOps.MeantIsUnique` | 3rdParty/src/libjson/Source/JSONNode.h:598-841 | that leaves nothing open: no other trees fit the description |
| `NodeStore.Store.Set` | 3rdParty/src/libjson/Source/internalJSONNode.cpp:259-350 | the node at the path has exactly the kind and text given, its old name and no children, a string flagged as encoded; every position elsewhere is as it was |
| `NodeStore.Store.Rename` | 3rdParty/src/libjson/Source/JSONNode.h:651-655 | so does `set_name` |
| `NodeStore.Store.PushBack` | 3rdParty/src/libjson/Source/JSONNode.h:717-724 | the child's tree is appended at one place; a node that is no container ignores it |
| `NodeStore.Store.Locate` | 3rdParty/src/libjson/Source/JSONNode.cpp:203-208 | finds the handle at the end of a path without changing any tree |
| `NodeStore.Store.Copy` | 3rdParty/src/libjson/Source/JSONNode.h:608-611 | a copied handle shows the tree it was copied from |
| `NodeStore.Store.Destroy` | 3rdParty/src/libjson/Source/JSONNode.h:618-621 | only the destroyed handle disappears |
| `NodeStore.Store.Swap` | 3rdParty/src/libjson/Source/JSONNode.h:816-822 | the two handles exchange their trees |
| `NodeStore.Store.AssignRoot` | 3rdParty/src/libjson/Source/JSONNode.h:731-740 | the target shows the source's tree, also for self-assignment |
| `NodeStore.Store.AssignEntry` | 3rdParty/src/libjson/Source/JSONNode.h:731-740 | assignment to a child handle replaces one place of one tree |
| `NodeStore.Store.Merge` | 3rdParty/src/libjson/Source/JSONNode.cpp:135-172 | any two nodes end up on the cell with more references; if they show the same, no tree changes |
| `NodeStore.Store.Clear` | 3rdParty/src/libjson/Source/JSONNode.h:633-639 | empties one place of one tree |
| `NodeStore.Store.PopBack` | 3rdParty/src/libjson/Source/JSONNode.cpp:272-285 | the child leaves its place and becomes a handle of its own; out of range changes nothing |
| `NodeStore.Store.Run` | 3rdParty/src/libjson/Source/JSONNode.h:608-841 | over any run the shared cells cannot be told from handles that each own a separate tree, each step does what it is meant to, and counts stay equal to handles plus entries |
| `NodeStore.UntouchedHandle` | 3rdParty/src/libjson/Source/JSONNode.h:837-841 | a handle that no step of a run writes shows the same tree at the end |
| `NodeStore.NoGarbage` | 3rdParty/src/libjson/Source/JSONNode.h:824-835 | every cell in memory can be reached from a handle |
| `NodeStore.NothingRemains` | 3rdParty/src/libjson/Source/JSONNode.h:824-835 | when the last handle is gone every cell has been freed |
| `NodeStore.PushedIntoItselfIff` | 3rdParty/src/libjson/Source/internalJSONNode.cpp:402-415 | a node pushed into itself or below itself has no tree any more iff the target is a container; then it is not freed with its last handle |
| `NodeStore.PoppedIsShaped` | 3rdParty/src/libjson/Source/JSONNode.cpp:287-300 | after `pop_back(name)` on any cell, shared or not, every cell shows a tree |
| `NodeStore.SharedPopShowsIff` | 3rdParty/src/libjson/Source/JSONNode.cpp:287-300 | `pop_back(name)` changes what another handle shows iff its tree leads to the cell; with one reference there is no such handle |
| `NodeStore.AssignedFromOwnChildIff` | 3rdParty/src/libjson/Source/JSONNode.h:731-740 | when `operator =` reads the child handle it assigns from, that handle is gone iff the parent cell had one reference |
| `NodeStore.AssignedFromOwnDescendant` | 3rdParty/src/libjson/Source/JSONNode.h:731-740 | so it is for a handle any number of levels down, reached through unshared cells |
| `MemPool.FlagsUpdate` | 3rdParty/src/libjson/mempool++/mempool.h:224-234 | setting or clearing a flag moves the number of set flags by one or not at all |
| `MemPool.AllSetButOne` | 3rdParty/src/libjson/mempool++/mempool.h:182-203 | if every slot but one is taken the count is at least the size less one |
| `MemPool.ScanSucceeds` | 3rdParty/src/libjson/mempool++/mempool.h:183-191 | below the threshold the circular scan finds a slot although it skips where it starts: the "impossible code location" is unreachable |
| `MemPool.ScanFailsIff` | 3rdParty/src/libjson/mempool++/mempool.h:183-191 | without that slack the scan misses iff only the slot it starts from can be free and that is not slot 0; from slot 0 it finds that one too, and never ends iff all are taken |
| `MemPool.LoopEnds` | 3rdParty/src/libjson/mempool++/mempool.h:184-190 | `NextFree` is where the turns of the loop arrive within one turn for each slot, or never |
| `MemPool.TakeIff` | 3rdParty/src/libjson/mempool++/mempool.h:182-203 | a pool gives a slot iff one more would not be over three quarters, or the slot behind the last one given is free |
| `MemPool.TakesTheNextFree` | 3rdParty/src/libjson/mempool++/mempool.h:182-203 | the slot given is the first free one on the way round |
| `MemPool.FreeSlotIsFound` | 3rdParty/src/libjson/mempool++/mempool.h:182-203 | every attempt moves on, so a free slot d places ahead is given by the d-th attempt at the latest, however full the pool |
| `MemPool.TakeKeepsValid` | 3rdParty/src/libjson/mempool++/mempool.h:182-203 | `current` stays the number of set flags and the roving pointer in range |
| `MemPool.ReleaseKeepsValid` | 3rdParty/src/libjson/mempool++/mempool.h:205-213 | so does freeing a used slot, and `current` was positive |
| `MemPool.FreshIsValid` | 3rdParty/src/libjson/mempool++/mempool.h:144-154 | a new pool is valid and its first allocation succeeds, even for tiny pools with threshold zero |
| `MemPool.Owner` | 3rdParty/src/libjson/mempool++/mempool.h:215-218 | `contains` names a pool that holds the address, or none does |
| `MemPool.OwnerOfBlock` | 3rdParty/src/libjson/mempool++/mempool.h:205-218 | the owner of a live block is the pool it came from, and its slot is computed back from the address |
| `MemPool.LiveBlocksApart` | 3rdParty/src/libjson/mempool++/mempool.h:224-234 | two live blocks of a chain never share a byte |
| `MemPool.AllocationIsFresh` | 3rdParty/src/libjson/mempool++/mempool.h:167-172 | an allocation adds exactly one block, not live before, and asks the system only when the chain is complete |
| `MemPool.DeallocationFreesOne` | 3rdParty/src/libjson/mempool++/mempool.h:174-180 | freeing a live block frees that block alone |
| `MemPool.ServeKeepsTidy` | 3rdParty/src/libjson/mempool++/mempool.h:167-243 | every request keeps pools and system blocks apart and valid |
| `MemPool.NoOverlapEver` | 3rdParty/src/libjson/mempool++/mempool.h:167-243 | after any run of requests no two live blocks overlap and there are at most four pools |
| `MemPool.AllocationNeverRepeats` | 3rdParty/src/libjson/mempool++/mempool.h:167-243 | in any reachable state an allocation gives a block that is not live |
| `MemPool.MemoryPool.constructor` | 3rdParty/src/libjson/mempool++/mempool.h:144-154 | no slot used, nothing linked |
| `MemPool.MemoryPool.ReturnCurrent` | 3rdParty/src/libjson/mempool++/mempool.h:224-234 | marks the current slot and gives its address |
| `MemPool.MemoryPool.Scan` | 3rdParty/src/libjson/mempool++/mempool.h:184-190 | the loop always ends on a free slot, the first one on the way round |
| `MemPool.MemoryPool.AllocateNoFallback` | 3rdParty/src/libjson/mempool++/mempool.h:182-203 | both phases together take the slot `Take` names |
| `MemPool.MemoryPool.Allocate` | 3rdParty/src/libjson/mempool++/mempool.h:167-172 | the recursion over linked pools is `ChainTake`, the function of the rows above |
| `MemPool.MemoryPool.LinkAllocate` | 3rdParty/src/libjson/mempool++/mempool.h:236-243 | links a fresh pool if there is none, up to the fallback depth, then turns to the system |
| `MemPool.MemoryPool.DeallocateNoFallback` | 3rdParty/src/libjson/mempool++/mempool.h:205-213 | clears the slot of the address |
| `MemPool.MemoryPool.Deallocate` | 3rdParty/src/libjson/mempool++/mempool.h:174-180 | the pool that contains the address takes the block back, the system gets all others |
| `BucketPool.BucketAllocationIsFresh` | 3rdParty/src/libjson/mempool++/mempool.h:789-801 | over all buckets: a block large enough, not live before, and nothing else changes; without a slot it is the system's |
| `BucketPool.TakesTheFirst` | 3rdParty/src/libjson/mempool++/mempool.h:325-325 | the first pool whose blocks are large enough and that has a slot to give serves the request, no pool behind it is touched, and the system only if there is none |
| `BucketPool.PoolBlocksApart` | 3rdParty/src/libjson/mempool++/mempool.h:836-845 | blocks of different buckets and sizes never overlap |
| `BucketPool.NewBlockApart` | 3rdParty/src/libjson/mempool++/mempool.h:789-801 | the requested bytes of a new block meet no block that was live |
| `BucketPool.RegrowthMovesOne` | 3rdParty/src/libjson/mempool++/mempool.h:329-336 | `reallocate` gives up the old block unless it stays, returns one of at least the requested size and leaves all others |
| `BucketPool.ContentsSurvive` | 3rdParty/src/libjson/mempool++/mempool.h:329-336 | the old contents are found at the new place and every other live block still holds its own bytes |
| `BucketPool.CopyMemory` | 3rdParty/src/libjson/mempool++/mempool.h:333-333 | the copy fills the new place and leaves every other byte |
| `BucketPool.Buckets.Allocate` | 3rdParty/src/libjson/mempool++/mempool.h:791-801 | the object serves a request from the first pool that can, as the row above says, else from the system |
| `BucketPool.Buckets.Reallocate` | 3rdParty/src/libjson/mempool++/mempool.h:802-812 | the object does what `Regrown` says and copies the whole old block, which is what the two rows above are about |
| `BucketPool.Buckets.FindOwner` | 3rdParty/src/libjson/mempool++/mempool.h:802-812 | the checks find the pool that holds the address, if there is one |
| `BucketPool.Buckets.Deallocate` | 3rdParty/src/libjson/mempool++/mempool.h:824-833 | the pool with the block takes it back, the system any other; no other block changes |
| `BucketRuns.ServeKeepsTidy` | 3rdParty/src/libjson/mempool++/mempool.h:789-833 | every request keeps blocks of the pools and of the system apart, whatever their sizes |
| `BucketRuns.NoOverlapEver` | 3rdParty/src/libjson/mempool++/mempool.h:789-833 | after any run of allocations, deallocations and reallocations no two live blocks overlap |
| `BucketRuns.AllocationFits` | 3rdParty/src/libjson/mempool++/mempool.h:789-801 | in any reachable state an allocation gives a block that was not live, large enough, and leaves every live block as it is |
| `Transport.WordRoundTrip` | src/VirtualTransportHelper.h:52-130 | a word written is read back, in either byte order |
| `Transport.BytesRoundTrip` | src/VirtualTransportHelper.h:115-130 | four bytes read as a word are the bytes of that word |
| `Transport.TakeBytes` | src/BufferedTransport.cpp:77-85 | a read consumes exactly what it returns, at most the bytes left |
| `Transport.ReadsFailIff` | src/BufferedTransport.h:150-260 | a word or a string is read iff its bytes are there, and else everything is consumed |
| `Transport.ReadWrittenString` | src/VirtualTransportHelper.h:179-187 | a length-prefixed string is read back and the cursor stands behind it |
| `Transport.BufferedTransport.Write` | src/BufferedTransport.cpp:57-65 | appends and leaves the cursor |
| `Transport.BufferedTransport.Read` | src/BufferedTransport.cpp:77-85 | reads as `TakeBytes` |
| `Transport.BufferedTransport.ReadInt32` | src/BufferedTransport.h:150-165 | fails on fewer than four bytes, having consumed them |
| `Transport.BufferedTransport.ReadString32` | src/BufferedTransport.h:252-260 | fails on a short length or a short string |
| `Transport.BufferedTransport.WriteInt32` | src/BufferedTransport.h:85-94 | appends the four bytes of the word |
| `Transport.BufferedTransport.WriteString32` | src/BufferedTransport.h:132-137 | appends the length and the bytes |
| `Transport.BufferedTransport.FastForward` | src/BufferedTransport.cpp:151-157 | moves the cursor, or fails and leaves it when the buffer is too short |
| `Frames.Resumes` | src/FrameProtocol.cpp:36-112 | a `processRead` that stopped between two words goes on as if it had not stopped |
| `Frames.InSyncIffAligned` | src/FrameProtocol.cpp:36-112 | nothing is lost between two reads iff the first did not end inside a header word |
| `Frames.CompleteIffWhole` | src/FrameProtocol.cpp:36-112 | `processRead` completes iff the bytes hold a whole frame, with exactly its header and payload start |
| `Frames.RemainIsExact` | src/FrameProtocol.cpp:83-100 | the signed remaining-bytes test is right for lengths and buffers below 2^31 |
| `Frames.RemainingSize` | src/FrameProtocol.cpp:160-173 | the bytes behind the frame do not depend on how far its payload has been read |
| `Frames.RemainingStart` | src/FrameProtocol.cpp:160-165 | neither does where they start |
| `Frames.ParseConcat` | src/ClientController.cpp:119-167 | the reference parser goes on from what was left over |
| `Frames.DeliverIsParse` | src/ClientController.cpp:119-167 | the read loop delivers exactly the frames of the reference and holds its rest |
| `Frames.EventIsParse` | src/ClientController.cpp:102-167 | so does a read event on top of bytes held back, if they end between words |
| `Frames.ChunksDoNotMatter` | src/ClientController.cpp:102-167 | for any chunks that split no header word the frames delivered and bytes held depend only on the bytes received |
| `Frames.ParseEncoded` | src/FrameProtocol.h:83-90 | frames serialized back to back are cut as they were sent |
| `Frames.FramesArrive` | src/ClientController.cpp:102-167 | any frames, read in any such chunks, are delivered exactly, in order, and nothing is held back |
| `Frames.NothingIsLost` | src/ClientController.cpp:119-167 | delivered frames written again, followed by the bytes held, are the bytes received |
| `Frames.EncodeFrameOf` | src/FrameProtocol.h:83-90 | a frame cut from a stream serializes to the bytes it was cut from |
| `Frames.EncodedIsRegular` | src/FrameProtocol.h:83-90 | what is serialized always has lengths of at least the header, so the loop advances |
| `Frames.TwoReadsDeliver` | src/FrameProtocol.cpp:36-112 | an empty frame in two reads is delivered iff the cut lies between two words |
| `Frames.FirstTurn` | src/FrameProtocol.cpp:36-112 | a fresh frame of any length field counts as complete iff it is, or the signed difference wraps |
| `Frames.SpinsIffZero` | src/ClientController.cpp:119-167 | the loop hands on the same frame for ever iff it comes to a length field of zero |
| `Frames.ShortLengthGoesOnInside` | src/ClientController.cpp:119-167 | a length of 1 to 15 gives a frame without payload, and the loop goes on inside its header |
| `Frames.OverreadsIff` | src/FrameProtocol.cpp:96-98 | a length beyond the buffer makes the loop ask for bytes outside it iff it exceeds it by 2^31 or more |
| `Frames.AgreesIffRegular` | src/ClientController.cpp:119-167 | the loop delivers the frames of the reference iff every length it meets is at least a header; otherwise it delivers more |
| `Frames.FrameProtocol.ProcessRead` | src/FrameProtocol.cpp:36-112 | the fall-through switch computes `Progress`, resuming where the last call stopped |
| `Frames.ClientController.Turn` | src/ClientController.cpp:119-167 | one turn delivers at most one frame and starts a protocol on the remaining bytes, for any length field |
| `Frames.ClientController.OnReadEvent` | src/ClientController.cpp:102-167 | a read event delivers what `OnRead` says, for any bytes |
| `Frames.ClientController.Drain` | src/ClientController.cpp:119-167 | the loop delivers what `Deliver` says: it waits for bytes, comes round to the same frame, or asks for bytes outside the buffer |
| `Chains.ChainSendsFrame` | src/FrameProtocol.cpp:115-157 | a chain over a frame sends header, payload and the decorators' bytes, root first, the header counting all of them |
| `Chains.LengthCountsBytesSent` | src/FrameProtocol.cpp:129-157 | the length field equals the number of bytes `processWrite` emits |
| `Chains.SizeCountsSent` | src/BaseProtocol.h:71-78 | `writingBufferSize` counts what is sent as long as only the last parent may be switched off |
| `Chains.WrappedLengthCounts` | src/FrameController.cpp:84-107 | re-wrapped by `writeFrame` the length field still counts the bytes sent, whatever the chain |
| `Chains.FindFrameIff` | src/FrameController.cpp:63-82 | following one kind of pointer finds the frame iff every link is of that kind |
| `Chains.DisabledKeeps` | src/FrameController.cpp:63-82 | switching the old frame off changes no content and no size |
| `Chains.WrappedPayloadIff` | src/FrameController.cpp:63-107 | the new frame carries just the decorators' bytes iff all links are of one kind |
| `Chains.StringsReadBack` | src/StringListProtocol.cpp:37-71 | the resumable reader collects the remaining strings and leaves what follows |
| `Chains.ListReadsBack` | src/VirtualTransportHelper.h:97-111 | a list written is read back as it was |
| `Chains.FramedListArrives` | src/StringListProtocol.cpp:37-78 | a list sent over a frame is cut from the stream and read back, and bytes behind the frame stay |
| `Chains.FramedListsArrive` | src/ClientController.cpp:102-167 | any lists, sent over frames back to back and read in any chunks that split no header word, come out of the read loop as they went in |
| `Chains.StringListProtocol.ProcessRead` | src/StringListProtocol.cpp:37-71 | the switch and loop compute `ReadList`, and return true even when a string is cut short |
| `Chains.StringListProtocol.ProcessSerialize` | src/StringListProtocol.cpp:73-78 | the writing buffer becomes the count and the strings |
| `Chains.Protocol.ProcessSerialize` | src/BaseProtocol.h:91-97 | over linked objects: every buffer of the chain is filled as `Serialized` says |
| `Chains.Protocol.SerializeFrame` | src/FrameProtocol.cpp:129-157 | the frame's buffer becomes header and payload |
| `Chains.Protocol.ProcessWrite` | src/BaseProtocol.cpp:61-82 | parents write first, switched-off ones not at all |
| `Chains.Protocol.DisableParentFrame` | src/FrameController.cpp:63-82 | switches off the frame found by the first of the two loops that finds one |
| `KBuffer.DrainDrops` | src/dep/kbuffer.c:102-116 | draining n drops the first n unread bytes, or all |
| `KBuffer.DrainKeepsNonEmpty` | src/dep/kbuffer.c:102-116 | a list without empty chunks stays so |
| `KBuffer.EmptyChunkHidesIff` | src/dep/kbuffer.c:81-90 | bytes wait and none is offered iff the first chunk has none left and a later one has |
| `KBuffer.Queue.Link` | src/dep/kbuffer.c:52-61 | the list stays doubly linked with the chunk at its end |
| `KBuffer.Queue.Add` | src/dep/kbuffer.c:47-65 | appends the bytes to the queue |
| `KBuffer.Queue.ChunkFree` | src/dep/kbuffer.c:13-32 | the head chunk leaves the list with its unread bytes |
| `KBuffer.Queue.ChunkRemove` | src/dep/kbuffer.c:34-37 | bytes are taken from the head chunk |
| `KBuffer.Queue.Drain` | src/dep/kbuffer.c:102-116 | drops min(n, size) bytes from the front; the list stays well formed and size stays the sum of unread bytes |
| `KBuffer.Queue.GetContiguous` | src/dep/kbuffer.c:81-90 | returns the unread bytes of the first chunk, a prefix of the queue; none iff the queue is empty or that chunk is used up |
| `KBuffer.Queue.GetSize` | src/dep/kbuffer.c:77-79 | the number of unread bytes |
| `KBuffer.Queue.ChunkCount` | src/dep/kbuffer.c:92-100 | the length of the list |
| `EventSocket.AlwaysSound` | src/LibeventTcpSocketImpl.h:443-697 | in any run queued bytes of a connected socket have a write event waiting |
| `EventSocket.WriteAddsOnceIff` | src/LibeventTcpSocketImpl.h:443-487 | a write queues its data once iff the socket is not in the middle of connecting |
| `EventSocket.SentThenPending` | src/LibeventTcpSocketImpl.h:576-630 | under any partial writes bytes sent followed by bytes queued are the bytes written |
| `EventSocket.ClosesWhenAllSent` | src/LibeventTcpSocketImpl.h:576-630 | the write event closes iff the system refused, or nothing is pending and a graceful close was asked for |
| `EventSocket.GracefulClose` | src/LibeventTcpSocketImpl.h:507-520 | a graceful close ends closed with everything sent, within one event more than there are bytes |
| `EventSocket.TakesWhatIsAccepted` | src/LibeventTcpSocketImpl.h:576-614 | exactly the bytes the system took leave the front of the queue |
| `EventSocket.AllIsSent` | src/LibeventTcpSocketImpl.h:576-630 | with enough write events everything queued is sent, and then the socket waits for no further one |
| `EventSocket.OrdinaryLife` | src/LibeventTcpSocketImpl.h:443-630 | what is written to a socket that connected, or was given a connection, goes out |
| `EventSocket.GracefulCloseForgotten` | src/LibeventTcpSocketImpl.h:507-520 | asked for during any connect with nothing queued it leaves a connected socket that waits for no write event |
| `EventSocket.GracefulCloseIff` | src/LibeventTcpSocketImpl.h:507-630 | given enough write events the socket closes iff it is connected or has something queued; otherwise no number of them closes it |
| `EventSocket.TcpSocket.Write` | src/LibeventTcpSocketImpl.h:443-487 | on the real queue: as `Written` |
| `EventSocket.TcpSocket.OnWriteEvent` | src/LibeventTcpSocketImpl.h:576-630 | offers the first chunk and drains what was taken: as `Flushed` |
| `EventSocket.TcpSocket.SendSome` | src/LibeventTcpSocketImpl.h:576-614 | the bytes sent are exactly those leaving the queue |
| `EventSocket.TcpSocket.CloseAfterAllSent` | src/LibeventTcpSocketImpl.h:507-520 | marks the socket and waits for the write event |
| `EventSocket.TcpSocket.Close` | src/LibeventTcpSocketImpl.h:522-553 | disconnects and keeps the queue |
| `Redis.StepKeepsSound` | src/RedisRequest.cpp:185-422 | every command, cancellation, connection change, reply and tick keeps the invariant |
| `Redis.AlwaysSound` | src/RedisRequest.cpp:185-422 | over any run each handler runs at most once, each command is sent at most once, and every unfinished ticket is reserved or in flight |
| `Redis.EveryRun` | src/RedisRequest.cpp:185-422 | so it is over any run from the start |
| `RedisRuns.Effects` | src/RedisRequest.cpp:185-361 | for each event: the state of the connection, the ticket given out, what is sent and which replies are owed |
| `RedisRuns.HandlersRun` | src/RedisRequest.cpp:321-422 | for each event: which handlers run, with what outcome, in which order |
| `RedisRuns.ReservationsStay` | src/RedisRequest.cpp:226-240 | the reservations are the open tickets among those there were, in order, and one issued without a connection |
| `RedisRuns.SentAndAnsweredInOrder` | src/RedisRequest.cpp:185-361 | over any run commands are sent in the order of their tickets, and those the connection answers are answered in that order |
| `RedisRuns.EveryCommandIsSent` | src/RedisRequest.cpp:250-303 | while there is a connection every ticket not cancelled or timed out has been sent, over any run |
| `RedisRuns.CancelForgets` | src/RedisRequest.cpp:216-240 | a cancelled ticket is neither open nor reserved; no handler runs and all other tickets stay in place |
| `RedisRuns.CancelIsFinal` | src/RedisRequest.cpp:216-240 | in any run no handler of a ticket runs after its cancellation, and it is not sent any more |
| `RedisRuns.TimesOutAtItsTick` | src/RedisRequest.cpp:185-422 | a command with a timeout of n is timed out by the n-th tick after it and no earlier one, unless answered before; without a timeout by none |
| `Redis.NeverAgain` | src/RedisRequest.cpp:216-240 | a ticket answered, failed or cancelled never has its handler run again |
| `Redis.TickFailsTheDue` | src/RedisRequest.cpp:369-422 | a tick fails exactly the commands whose timeout it completes, each once, in ticket order |
| `Redis.DeadlineStands` | src/RedisRequest.cpp:369-422 | a command still open has seen fewer ticks than its timeout and keeps its deadline |
| `Redis.NoneForgotten` | src/RedisRequest.cpp:185-422 | a ticket that is no longer open and was not cancelled has had its handler run, so with the rows above exactly once |
| `Redis.CloseFailsInFlight` | src/RedisRequest.cpp:321-336 | a connection that ends fails exactly the open commands in flight; the others stay reserved for the next one |
| `Redis.ResentIffReserved` | src/RedisRequest.cpp:293-303 | if a connection were lost without null replies, the next would send commands twice iff any are still reserved |
| `Redis.RedisRequest.Command` | src/RedisRequest.cpp:185-214 | issues the next ticket, sent or reserved by the state of the connection; the rows above say what becomes of it |
| `Redis.RedisRequest.Cancel` | src/RedisRequest.cpp:216-224 | is the cancellation of the rows above |
| `Redis.RedisRequest.DoCommand` | src/RedisRequest.cpp:250-257 | the command is in flight |
| `Redis.RedisRequest.RemoveContext` | src/RedisRequest.cpp:226-240 | forgets the ticket and its first reservation, found by a loop over the list |
| `Redis.RedisRequest.Fire` | src/RedisRequest.cpp:338-361 | the handler of a known ticket runs before the ticket is forgotten |
| `Redis.RedisRequest.FireConnected` | src/RedisRequest.cpp:293-303 | sends all reserved commands in order |
| `Redis.RedisRequest.FireClosed` | src/RedisRequest.cpp:321-336 | fails what is in flight and disconnects |
| `Redis.RedisRequest.OnTtlTimer` | src/RedisRequest.cpp:369-422 | the counting pass and the failing pass together are one tick |
| `Deferred.ExclusiveStep` | src/IOServiceImpl.h:88-92 | the lock always has one owner, the thread inside it |
| `Deferred.InOrderStep` | src/IOServiceImpl.h:177-184 | calls run followed by calls waiting are the calls posted, also while a call posts more |
| `Deferred.NoticedStep` | src/IOServiceImpl.h:88-95 | a queue that is not empty has a wake-up pending, a firing under way or a poster about to trigger |
| `Deferred.AlwaysSound` | src/DeferredCallerImpl.h:50-73 | all three hold in every interleaving |
| `Deferred.ExecutedInPostOrder` | src/DeferredCallerImpl.h:50-73 | calls run in post order, each at most once |
| `Deferred.QuietMeansDone` | src/DeferredCallerImpl.h:50-73 | when all threads are at rest every posted call has run |
| `Deferred.PostersWake` | src/IOServiceImpl.h:88-95 | every post wakes the loop, and only the loop takes a wake-up away |
| `Deferred.StepIsCloser` | src/IOServiceImpl.h:177-184 | every step other than a post brings the threads closer to rest |
| `Deferred.EveryScheduleFinishes` | src/IOServiceImpl.h:88-184 | once posting stops every schedule reaches rest by its own steps, with all calls run in order |
| `Multipart.Find` | src/dep/MPFDParser/Parser.cpp:249-269 | the first occurrence from a position on, or none |
| `Multipart.NameComesBackIff` | src/dep/MPFDParser/Parser.cpp:176-228 | the name in a header comes back unless it ends in `filename=`, when the parser throws |
| `Multipart.FieldNameIff` | src/dep/MPFDParser/Parser.cpp:176-228 | which headers are accepted, which name a file, and that the name is the text from the first `name="` to the next quote |
| `Multipart.BlankLineFound` | src/dep/MPFDParser/Parser.cpp:148-166 | the headers end at the blank line that was written |
| `Multipart.BoundaryFound` | src/dep/MPFDParser/Parser.cpp:249-269 | the boundary after a content is the first one |
| `Multipart.Turn` | src/dep/MPFDParser/Parser.cpp:87-117 | every turn of the repeat loop shortens the data or moves on from content to boundary, so the loop ends |
| `Multipart.PartProcessed` | src/dep/MPFDParser/Parser.cpp:87-146 | one part leaves its field, unless empty, and the line end before the next boundary |
| `Multipart.BodyProcessed` | src/dep/MPFDParser/Parser.cpp:87-146 | all parts leave the fields with content, in order |
| `Multipart.FormComesBack` | src/dep/MPFDParser/Parser.cpp:63-146 | a form sent in one piece yields exactly its kept fields |
| `Multipart.KeptIsAllIff` | src/dep/MPFDParser/Parser.cpp:119-146 | that is the whole form iff no field is empty or holds a NUL |
| `Multipart.CutIsHarmless` | src/dep/MPFDParser/Parser.cpp:87-117 | processing that stopped goes on with more data as if it had come at once, unless it let content go early |
| `Multipart.PiecesDoNotMatter` | src/dep/MPFDParser/Parser.cpp:63-85 | so data accepted in two pieces is accepted as one |
| `Multipart.AcceptedIff` | src/dep/MPFDParser/Parser.cpp:63-85 | data over the limit or without a boundary is refused, other data comes behind what is held |
| `Multipart.FiledEarlyIff` | src/dep/MPFDParser/Parser.cpp:119-146 | content without a boundary in it is filed, and the current field let go, iff there are more than two bytes of it and not exactly a boundary's length and two |
| `Multipart.CrashesIff` | src/dep/MPFDParser/Parser.cpp:87-146 | content is processed without a current field iff there is none and the step has bytes to file; later fields never lack one |
| `Multipart.SplitContentCrashesIff` | src/dep/MPFDParser/Parser.cpp:119-146 | which further bytes then use a field that was let go, for content cut anywhere before its boundary |
| `Multipart.MultipartParser.BoundaryPosition` | src/dep/MPFDParser/Parser.cpp:249-269 | the two nested loops find the first boundary |
| `Multipart.MultipartParser.FindStartingBoundaryAndTruncData` | src/dep/MPFDParser/Parser.cpp:271-279 | drops everything up to and including the boundary |
| `Multipart.MultipartParser.WaitForHeadersEndAndParseThem` | src/dep/MPFDParser/Parser.cpp:148-166 | waits for a blank line and starts the field |
| `Multipart.MultipartParser.ProcessContentOfTheField` | src/dep/MPFDParser/Parser.cpp:119-146 | files content up to the boundary, or all but a possible partial one |
| `Multipart.MultipartParser.ProcessData` | src/dep/MPFDParser/Parser.cpp:87-117 | the repeat loop computes `Processed` and ends |
| `Multipart.MultipartParser.AcceptSomeData` | src/dep/MPFDParser/Parser.cpp:63-85 | appends, refuses more than the maximum, and processes |
| `Base64.TableIsInverse` | 3rdParty/src/libjson/Source/JSON_Base64.cpp:48-54 | the 80-entry table inverts the alphabet |
| `Base64.AlphabetIsInverted` | 3rdParty/src/libjson/Source/JSON_Base64.cpp:48-54 | and the alphabet inverts the table |
| `Base64.EncodingIsAccepted` | 3rdParty/src/libjson/Source/JSON_Base64.cpp:56-72 | every encoding passes the decoder's padding check |
| `Base64.DecodeEncode` | 3rdParty/src/libjson/Source/JSON_Base64.cpp:6-97 | decoding an encoding gives the bytes back, for every length |
| `Base64.EncodingIsCanonical` | 3rdParty/src/libjson/Source/JSON_Base64.cpp:8-45 | encodings are canonical: full groups, right padding, no stray bits |
| `Base64.EncodeDecodeIff` | 3rdParty/src/libjson/Source/JSON_Base64.cpp:6-97 | encoding what was decoded gives the text back iff it is canonical (section 4 of RFC 4648) |
| `Base64.DecodesToNothingIff` | 3rdParty/src/libjson/Source/JSON_Base64.cpp:56-97 | a text decodes to nothing iff it is shorter than a group or holds anything but the alphabet and at most two padding characters at its end |
| `Base64.JsonEncode64` | 3rdParty/src/libjson/Source/JSON_Base64.cpp:8-45 | the group loop with its one- and two-byte ends computes `Encode` |
| `Base64.JsonDecode64` | 3rdParty/src/libjson/Source/JSON_Base64.cpp:56-97 | the check and the group loop compute `Decode` |

## Left out

libjson:

- Comments of nodes are skipped where the parser skips them, but not stored or written.
- Formatted output, the validator, the C interface, unicode surrogates, parsing without
  laziness and the other options that are off.
- Numbers stay text: conversion to floating point and the tolerant comparison of
  numbers are not modelled; equal texts stand for equal numbers.
- JsonTransparency.EqualIffSameTree: numbers are equal when their texts are, where the
  source compares them with a tolerance.
- Numbers.Itoa: the minimum of the widest signed type is excluded, as its negation
  overflows in the source.
- JSON nodes as parsed and written are values here; their sharing is in `NodeStore`,
  where all cells are fetched. The two meet in the tree each of them shows.
- NodeStore.Store.Run: `merge` in a run is of nodes that show the same, as the library
  means it; other nodes are covered by the method's own contract. Fetching is not part of
  the runs. Programs keep root handles and reach nodes by fresh paths; a
  `JSONNode &` kept across a copy, `cast`, `as_node`, `as_array`, iterators and
  `insert`/`erase` are not modelled, and `pop_back(name)` only in `SharedPopShowsIff`.
- Child lists are sequences; the growth of `jsonChildren` is not modelled.
- JsonStream.Stream.Parse: without the error callback and exceptions thrown by `parse`
  inside it; the callback only answers whether to go on, by the document alone.
- JsonStream.Stream.Push: the same.

mempool++:

- The threshold is computed exactly (three quarters, rounded down), not in `float`.
- The system allocator is an argument: an address outside everything live. A NULL from
  it and `memory_pool` with its full flag are not modelled; `reallocate` of a system
  block is left to the system.
- The eight buckets are a sequence of pools without fallback chains, as `contains` and
  `allocate_nofallback` use them.

Frames and chains:

- Frames.FramesArrive: lengths and chunks are below 2^31 bytes, where the source's signed
  arithmetic does not wrap; `Frames.OverreadsIff` is about longer ones. The checksum is the
  constant 1 the source uses.
- Frames.ClientController.Drain: an endless loop ends with the result `GoesOn` after one
  round, and a turn that asks for bytes outside the buffer ends with `Outside`; what those
  bytes are is not modelled.
- Line, JSON and HTTP protocols: what they hold back depends on how reads were cut.
- Chains.StringListProtocol.ProcessRead: the list is read from a complete payload; reading
  through parents that are themselves incomplete is not modelled.

Sockets:

- libevent itself, `bufferevent` mode, name resolution, timers and a socket that was
  never set up. An event offers the system one chunk, as the source does.
- KBuffer.Queue.ChunkFree: for the head of the list, the only chunk the library frees.

Redis and deferred calls:

- hiredis: a lost connection answers everything in flight with null replies, which its
  documentation promises. Commands it refuses at once are not modelled.
- Commands from other threads, handlers that close the connection or issue commands from
  inside, and ticket numbers wrapping around.
- Deferred calls are a machine of steps, not a class: the point is the order of steps of
  different threads. That the vector may move while one of its calls runs is not modelled.

Multipart:

- File fields and temporary files, `SetContentType`'s search for the boundary, and the
  map of fields by name: fields are kept in the order they arrive.
- Multipart.SplitContentCrashesIff: what happens after a field that was let go is used is
  undefined in the source and not modelled.

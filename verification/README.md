# A model of icehydra: its JSON engine and its broker

icehydra is a small message broker. It reads a configuration made of JSON documents with an
embedded JSON library (`src/cJSON.c`) and then relays framed commands between processes over
local stream sockets. This project models both cores in Dafny and proves what they promise.

**The JSON engine.** Three layers are related to one another.

- *Specifications.* `Parser` gives the recursive-descent parser as functions of the unread
  bytes. `Grammar` gives JSON texts as syntax trees that keep every blank. `Renderer` gives the
  printed text of a value, and `Minifier.Filter` the minified text. `Comparison` gives
  `cJSON_Compare` on values, beside an independent denotation with objects as finite maps.
- *Theorems about them.* The parser decides the grammar: it is sound, and complete up to the
  nesting limit (`Language`). Printing and parsing are inverse (`RoundTrip`). Minifying removes
  blanks between tokens and nothing else exactly under a stated condition on the literals, and then
  keeps the meaning; comments between tokens go (`Comments`). Escapes obey RFC 3629 and RFC 2781.
  Comparing decides equality of denotations, and exactly which trees equal their own copies.
- *The bytes themselves.* What these functions share with the code is tied to statements in which
  every token is written out. `Standard` reads RFC 8259 as an independent grammar, all of whose texts
  are accepted. `Decimals` says what a number literal is worth in powers of ten. `Layout` gives the
  layout of printed texts blank by blank, and shows that it is the only one. `Positions` and
  `Failures` say where errors are reported.
- *The code as it runs.* `HeapParser` moves a cursor over a shared buffer, allocates nodes and
  strings from an allocator that may refuse any request, and links siblings as it goes.
  `StringReader` reads literals in two passes into an array. `Printer` writes into a growable or
  fixed buffer. `Minifier.Minify` rewrites its argument in place. `Siblings`, `Duplicator`,
  `NodeComparison` and `Memory` walk and change the linked nodes. Each of these methods is proved
  against the specifications; `Reparse` composes printing with parsing as they run.

The heap is a map from pointers to blocks (`Memory`). A *shape* lists the blocks of a sibling
chain and of everything below it; `Owns`, `Separate`, `Means`, `Chained` and `Rounded` say that a
heap holds such a tree, that each block is owned once, what the tree stands for, and how its back
pointers run. `Views` describes trees that are only read, where nodes may borrow their contents or
their names and trees may share nodes.

**The broker.** `Framing` models a socket as a byte stream whose `send` and `recv` move any number
of bytes or fail in any way, with the retry budget of one frame. What the kernel answers is a fixed
but arbitrary plan, and every answer is recorded in the socket's log, so that a contract can say
which answers make a call fail. `Protocol` models the command head and its rewriting in place. `Broker` is a step relation over nodes, open descriptors and everything
ever written on every connection, with an invariant and theorems about whole runs. `Delivery`
states what a broadcast does to each connection, byte by byte, and follows a payload from the
client's call to the subscriber's receive. `MainLoop` is the loop itself, refining the
relation. `Rings` models the intrusive lists and `Config` the loading of a configuration file.

Some modelling decisions matter for reading the contracts.

- Parse buffers end with a NUL, as the length that `cJSON_ParseWithOpts` computes makes them. A
  configuration file is read up to its first NUL only, because that length comes from `strlen`.
- Memory requests are answered by a fixed but arbitrary sequence of grants and refusals, both for the
  nodes (`Memory.Allocator`) and for the print buffers (`Printer.Hooks`). A contract that excuses a
  failure by refused memory says that a request of this very call was refused.
- A number is the exact decimal that its literal denotes: rounding to `double` and minus zero are
  not modelled. Printing is restricted to 32-bit integers, where the `%d` branch is taken.
- A string is what C string functions see of a block: everything before its first NUL.
- `cJSON_Compare` answers true for a node compared with itself without looking further.
  `NodeComparison.CompareNodes` keeps that shortcut. It makes no difference on consistent trees,
  where the members of one name denote the same; any other tree differs from its copies
  (`Comparison.CompareSelf`).
- A node may borrow its contents (`cJSON_IsReference`) or its name (`cJSON_StringIsConst`).
  `cJSON_Delete` leaves what is borrowed alone, comparing reads through it, and a copy owns its
  contents again but shares a constant name. The lists that the parser builds borrow nothing.
- `tcp_recv_protocol_cmd` does not check that a frame fits the caller's buffer. The model requires
  that it does.
- A node that never connected holds descriptor 0. A send to it fails and writes on no connection.

Where a promise is false of the code, the model keeps the code. Minifying loses bytes of
literals in some texts with a backslash right before a closing quote, exactly as
`Minifier.MinifyStripsExactly` says, and may change the meaning (`Minifier.MinifyCanChangeMeaning`).
A reply to a reserved command that fails is not followed by a close. All other connections stay
framed (`Broker.AnyRunIsSafe`), and this one does as long as nothing more is sent to its node
(`Delivery.SpoiledStaysFramed`). On the connection of the failed reply, the next frame keeps the
framing exactly when it commutes with the torn reply (`Broker.FrameBehindTorn`), and a broadcast
never does (`Broker.FailedReplyBreaksFraming`). An appended item keeps its own `next`, so the list is the
longer list exactly when it had none (`Siblings.AddItemToArray`). Nesting deeper than 1000 is
printed but not read back (`RoundTrip.PrintThenParse`).

## Model

| member | source | states |
|---|---|---|
| `Numbers.IntTextReadsBack` | src/cJSON.c:545-612 | for every 32-bit integer, the `%d` text has at most 11 bytes and is a literal that `strtod` reads to its end as that integer |
| `Numbers.NumberLengthOfLiteral` | src/cJSON.c:305-379 | a literal of at most 63 number characters is consumed exactly, whatever non-number byte follows |
| `Decimals.NatIsPositional` | src/cJSON.c:305-356 | digits are worth their powers of ten, from the left |
| `Decimals.DecimalMeans` | src/cJSON.c:305-356 | sign, digits w, point and n digits f, and power e, in their bytes: the value times 10^n is the number written by w and f together, times 10^e |
| `Decimals.DecimalIsWritten` | src/cJSON.c:305-356 | nothing else is taken for a decimal |
| `Decimals.IntTextIsShortest` | src/cJSON.c:545-612 | `%d` writes no leading zero, and a minus exactly for what is negative |
| `HeapParser.ReadNumber` | src/cJSON.c:305-356 | the scratch-buffer loop and `strtod` take exactly the longest decimal prefix of the number characters, with its value |
| `Values.ValueInt` | src/cJSON.c:359-373 | the accompanying integer saturates at the 32-bit bounds and otherwise truncates toward zero; it is exact for 32-bit integers |
| `Utf.Utf8MeetsTable` | src/cJSON.c:715-762 | the bytes that the encoding loop computes are those of the table in section 3 of RFC 3629, for every code point |
| `Utf.DecodedAreScalars` | src/cJSON.c:652-713 | decoding 16-bit units as RFC 2781 says never gives a surrogate |
| `Utf.Utf16RoundTrip` | src/cJSON.c:652-713 | scalar values written as UTF-16 units decode to themselves |
| `Utf.SpelledIsRead` | src/cJSON.c:615-649 | four digits that write a 16-bit unit in base 16, each in either case, are read as that unit |
| `StringLiterals.ScanOfBody` | src/cJSON.c:786-808 | the first pass stops at the closing quote of any string body, whatever follows |
| `StringLiterals.StepFits` | src/cJSON.c:821-877 | every turn of the unescape loop stays within the room that the scan reserved, also when a `\u` with bad digits has put it out of phase with the scan |
| `StringLiterals.OutputFits` | src/cJSON.c:786-877 | for every body, the second pass never writes more bytes than the first pass counted steps |
| `StringLiterals.UnitEscapesDecode` | src/cJSON.c:615-770 | any 16-bit units, each spelled by four digits out of the sixteen in either case: the run of escapes is accepted exactly when the units are well-formed UTF-16, and is then written as UTF-8 |
| `StringLiterals.ScalarsDecode` | src/cJSON.c:652-770 | any scalar values whose UTF-16 units are spelled so unescape to the concatenation of their UTF-8 encodings |
| `StringLiterals.BadDigitsWriteNul` | src/cJSON.c:633-636 | a `\u` with a byte among the next four that is no such digit writes a NUL and is no error |
| `StringLiterals.EscapesAreRead` | src/cJSON.c:821-874 | the eight short escapes of section 7 of RFC 8259 stand for their bytes, any other but `\u` is an error, and other bytes stand for themselves |
| `StringLiterals.EscapeReadsBack` | src/cJSON.c:902-1021 | what the printer escapes is a string body that unescapes to the original bytes |
| `StringLiterals.EscapesAreWritten` | src/cJSON.c:970-1016 | seven of the short escapes are written for their bytes, other control bytes as `\u00XX` in lower case, and all other bytes as they are |
| `Unicode.EscapedUnitsParse` | src/cJSON.c:773-899 | in a document, a literal of units spelled so parses if and only if they are well-formed UTF-16; an unpaired surrogate is rejected |
| `Unicode.EscapedScalarsParse` | src/cJSON.c:773-899 | a literal of scalar values other than U+0000 spelled so parses to exactly their UTF-8 encoding and stops behind its closing quote |
| `StringReader.ScanLiteral` | src/cJSON.c:786-811 | the scanning loop finds the closing quote exactly when there is one, and the skipped bytes it counts give the number of scan steps |
| `StringReader.WriteUtf8` | src/cJSON.c:715-764 | the loop that fills an encoding from the back appends exactly the UTF-8 bytes of the code point |
| `StringReader.DecodeLiteral` | src/cJSON.c:652-770 | one or two `\uXXXX` in place: the length used and the bytes written are those of the literal, or nothing is written when it is malformed |
| `StringReader.DecodeTurn` | src/cJSON.c:821-874 | one turn of the second pass is one step of the unescape function, within the room left |
| `StringReader.UnescapeInto` | src/cJSON.c:821-877 | the second pass writes exactly the unescaped body, its cursor ends at most one past the closing quote, and no write leaves the block |
| `StringReader.ReadBody` | src/cJSON.c:812-885 | the block that was sized by the first pass holds the unescaped string and its terminator, or the position of the bad escape is reported |
| `Parser.Skip` | src/cJSON.c:1038-1061 | skipping blanks never leaves the buffer, keeps its terminator and stops at a non-blank or at the last byte |
| `Parser.ParseValue` | src/cJSON.c:1312-1364 | a successful parse consumes at least one byte and leaves the cursor inside the buffer; the recursion terminates |
| `Parser.ParseContainer` | src/cJSON.c:1441-1536 | the same for arrays and objects |
| `Parser.ParseItems` | src/cJSON.c:1476-1508 | the same for the items; on success at least one was read and the cursor stands at a byte that is no comma |
| `Parser.ErrorPosition` | src/cJSON.c:1144-1169 | the reported position is where the unread rest begins, or the last byte when nothing is left |
| `Language.Complete` | src/cJSON.c:1312-1364 | the text of every syntax tree is read to its end as the tree's value exactly when depth and nesting stay within 1000, and rejected otherwise |
| `Language.CompleteGroup` | src/cJSON.c:1441-1536 | the same for arrays and objects |
| `Language.CompleteElems` | src/cJSON.c:1601-1711 | the same for the items between brackets, with names and colons in objects |
| `Language.Sound` | src/cJSON.c:1312-1364 | whatever is accepted is the text of a syntax tree with the value returned, and nests within the limit |
| `Language.SoundContainer` | src/cJSON.c:1441-1536 | the same for arrays and objects |
| `Language.SoundItems` | src/cJSON.c:1601-1711 | the same for the items between brackets |
| `Language.CompleteDocument` | src/cJSON.c:1095-1140 | with `require_null_terminated`, a document (mark, blanks, value, blanks, NUL) is accepted exactly when its nesting is within the limit |
| `Language.SoundDocument` | src/cJSON.c:1095-1140 | with `require_null_terminated`, whatever is accepted is such a document, with the value returned |
| `Standard.StringIsRead` | src/cJSON.c:773-899 | every string of section 7 of RFC 8259 with paired surrogates is read as the UTF-8 of what it spells |
| `Standard.NumberIsRead` | src/cJSON.c:305-379 | every number of section 6 of RFC 8259 of at most 63 bytes is a literal that is read to its end |
| `Standard.LongRunIsCut` | src/cJSON.c:316-350 | of more than 63 digits, the first 63 are the number |
| `Standard.StandardIsAccepted` | src/cJSON.c:1095-1140 | every text of RFC 8259, written out in bytes, is accepted with its value exactly when containers nest at most 1000 deep, with or without a byte order mark |
| `Standard.AcceptedIsLoose` | src/cJSON.c:1095-1140 | whatever a strict parse accepts has the tokens of RFC 8259 in its bytes, but for three liberties: any bytes up to 32 are blanks, any decimal of at most 63 bytes that begins with a minus or a digit is a number, and a string is whatever the two passes take; it nests at most 1000 deep |
| `Standard.BlanksAreSkipped` | src/cJSON.c:1038-1061 | all bytes up to 32 are skipped, and no other |
| `Standard.MarkIsSkipped` | src/cJSON.c:1064-1077 | the mark is passed over exactly when two more bytes follow |
| `Positions.FailsNotTooEarly` | src/cJSON.c:1095-1169 | for every text: what a failed parse has passed begins some document, but for at most one byte, which stands where a quote was expected |
| `Positions.PositionNotTooEarly` | src/cJSON.c:1144-1169 | the first byte with which no document can go on is at most one byte before the reported position |
| `Failures.FailurePropagates` | src/cJSON.c:1441-1711 | behind any items and inside any containers, a value that fails makes the whole fail at the same byte |
| `Failures.DocumentFails` | src/cJSON.c:1095-1169 | and the document reports exactly that position |
| `Failures.NoValue` | src/cJSON.c:1312-1364 | where no value begins, the error is at that byte |
| `Failures.NoDigits` | src/cJSON.c:305-356 | a minus without a number is the error |
| `Failures.TooDeep` | src/cJSON.c:1446-1450 | the bracket that would open the 1001st container is the error |
| `Failures.NoSeparator` | src/cJSON.c:1508-1514 | behind complete items, the byte that is neither a comma nor the closing bracket is the error |
| `Failures.NoName` | src/cJSON.c:1657-1663 | where a name is missing, the error is one byte behind |
| `Failures.NoColon` | src/cJSON.c:1669-1672 | the byte in place of the colon is the error |
| `Failures.NoQuote` | src/cJSON.c:786-811 | for a literal without end, the error is right behind its opening quote |
| `Failures.BadEscape` | src/cJSON.c:821-896 | behind any characters, the backslash of an unknown escape is the error |
| `Failures.NotTheEnd` | src/cJSON.c:1127-1134 | in a strict parse, the first byte that is no blank behind the value is the error |
| `Grammar.DepthIsNesting` | src/cJSON.c:1446-1450 | the depth of a text is the container nesting of its value |
| `RoundTrip.FlattenIsRender` | src/cJSON.c:1367-1438 | every printed text, formatted or not, is the text of a syntax tree built from the value |
| `RoundTrip.TreeOfMeans` | src/cJSON.c:1312-1364 | that tree is well formed and means the value |
| `RoundTrip.PrintThenParse` | src/cJSON.c:1312-1825 | for every value of null, booleans, 32-bit integers, NUL-free strings, arrays and objects: parsing its printed text gives the same value if and only if containers nest at most 1000 deep, and fails otherwise |
| `Layout.PrintedIsLaidOut` | src/cJSON.c:1539-1825 | for every value: the unformatted text has no blank outside its literals; in the formatted text each member stands on a line of its own behind as many tabs as containers are open around it, its closing brace behind one fewer, one space follows an array's comma, one tab a colon, and there is no other blank |
| `Layout.LaidOutIsPrinted` | src/cJSON.c:1539-1825 | and every text of the value that is laid out and spelled so is the printed text |
| `Layout.MissingNames` | src/cJSON.c:910-927 | a member without a name prints like one with the empty name, an element of an array without any |
| `Reparse.PrintAndParse` | src/cJSON.c:1095-1249 | printing into a buffer and parsing into the heap, under any refusals on either side: the value comes back as a tree of new blocks if and only if it nests within the limit, unless a request was refused; a failure leaves the heap and the print blocks as they were |
| `Memory.Allocator.Allocate` | src/cJSON.c:241-250 | a new block was not live before; NULL comes exactly with one more refused request and an unchanged heap |
| `Memory.Allocator.Delete` | src/cJSON.c:253-274 | releases exactly the blocks that a chain owns at any depth, each once, and touches nothing else; what a node borrows stays |
| `Memory.Allocator.DeleteNode` | src/cJSON.c:256-272 | one turn: the node, and its two strings and the chain below it unless they are borrowed |
| `Memory.BorrowedIsNotOwned` | src/cJSON.c:256-272 | a reference with a constant name owns nothing but its node, one with a name of its own that name, whatever they point at |
| `Views.OwnsLinked` | src/cJSON.c:253-274 | in a tree without references, what is owned is what a walk along `next` and `child` reaches |
| `Views.MeansReads` | src/cJSON.c:1312-1364 | a tree that borrows nothing reads as what it stands for |
| `HeapParser.ParseBuffer.SkipWhitespace` | src/cJSON.c:1038-1061 | the loop with its step back is the skipping function; the cursor stays inside |
| `HeapParser.ParseBuffer.SkipUtf8Bom` | src/cJSON.c:1064-1077 | a leading mark is skipped when at least two more bytes follow |
| `HeapParser.ParseBuffer.ParseString` | src/cJSON.c:773-899 | both passes agree with the parser function in verdict, value and cursor; success adds one block and hangs it on the item, failure adds none |
| `HeapParser.ParseBuffer.ParseNumber` | src/cJSON.c:305-379 | agrees with the parser function and fills the item with the number |
| `HeapParser.ParseBuffer.NewItem` | src/cJSON.c:1478-1497 | a new node is linked behind the chain in both directions, and the chain keeps its meaning |
| `HeapParser.ParseBuffer.ParseKey` | src/cJSON.c:1657-1677 | the member name and the colon, with the literal moved from `valuestring` to `string` |
| `HeapParser.ParseBuffer.AddItem` | src/cJSON.c:1478-1506 | one item parsed into a node behind the chain, or the whole chain given back |
| `HeapParser.ParseBuffer.ParseList` | src/cJSON.c:1476-1508 | the loop builds a chain that stands for exactly the items of the parser function, or leaves the heap as it was |
| `HeapParser.ParseBuffer.CloseList` | src/cJSON.c:1518-1520 | the first node's `prev` is made the last node, and nothing else changes |
| `HeapParser.ParseBuffer.ParseGroup` | src/cJSON.c:1441-1536 | arrays and objects agree with the parser function, restore the depth, and give back every block on failure |
| `HeapParser.ParseBuffer.ParseValue` | src/cJSON.c:1312-1364 | the blank item is filled with the value of the parser function, by blocks that are all new and owned once; on failure the heap is unchanged and, unless this call was refused memory, the parser function fails at the same place |
| `HeapParser.ParseWithOpts` | src/cJSON.c:1095-1172 | under every pattern of refused allocations, a failed parse leaves exactly the blocks that were live and a successful one adds exactly those of the returned tree; unless this call was refused memory, verdict, value and error position are those of the parser function |
| `Printer.PrintBuffer.Ensure` | src/cJSON.c:439-522 | reserves the bytes asked for and one more and keeps the text; a buffer that is too small grows to twice what is needed, or to the size limit; it fails only when the fixed buffer or the size limit is too small or a request of this call was refused; the live blocks change by the buffer alone |
| `Printer.PrintBuffer.Grow` | src/cJSON.c:489-521 | the text moves to a block of the new size, with `realloc` or by hand, and the live blocks gain that block and lose the old one; a refusal releases the old one |
| `Printer.PrintBuffer.UpdateOffset` | src/cJSON.c:525-535 | the cursor moves to the next NUL |
| `Printer.PrintBuffer.CatchUp` | src/cJSON.c:525-535 | after a value was written by a writer that did not advance, the cursor stands behind its text |
| `Printer.PrintBuffer.Append` | src/cJSON.c:1785-1802 | a piece of text behind the earlier text; every write lies in the bytes that were reserved for it, and nothing is written on failure |
| `Printer.PrintBuffer.PrintString` | src/cJSON.c:902-1021 | the escaped literal stands behind the earlier text with a NUL behind it, exactly when it and two bytes more fit, unless a request of this call was refused; nothing behind that NUL is written, and nothing at all on failure |
| `Printer.PrintBuffer.PrintScalar` | src/cJSON.c:545-612 | the same for words, numbers and strings, with failures only for lack of room or a refused request; nothing behind the NUL is written |
| `Printer.PrintBuffer.PrintGroup` | src/cJSON.c:1539-1598 | the same for arrays and objects; the depth is restored, and nothing behind the NUL is written |
| `Printer.PrintBuffer.PrintMember` | src/cJSON.c:1741-1805 | one member of an object, with indentation, name, colon, value and comma; nothing more than one byte behind it is written |
| `Printer.PrintBuffer.PrintValue` | src/cJSON.c:1367-1438 | the buffer up to the first NUL is the earlier text followed by the rendered value, and no byte behind that NUL is written; it succeeds exactly when the text and two bytes more fit, unless a request of this call was refused; the live blocks change by the buffer alone |
| `Printer.Trim` | src/cJSON.c:1209-1249 | the finished text moves to a block of its own size and the buffer is released, also when the request is refused |
| `Printer.PrintPreallocated` | src/cJSON.c:1292-1309 | succeeds if and only if the buffer is at least two bytes longer than the rendered text, and then holds it as a C string, with the bytes behind the terminator as they were |
| `Printer.Print` | src/cJSON.c:1187-1249 | the text in a block of its own size, the same with `realloc` and with manual copying; a success adds exactly that block to the live ones, a failure leaves them as they were, and it fails only when a request of this call was refused or the text exceeds the size limit |
| `Minifier.FilterIdempotent` | src/cJSON.c:2838-2884 | minifying twice equals minifying once, for every text |
| `Comments.BytesAreFiltered` | src/cJSON.c:2838-2884 | space, tab and the two line ends go, a slash that begins no comment goes, and any other byte but the quote stays |
| `Comments.LiteralsAreCopied` | src/cJSON.c:2816-2836 | a literal without quotes and backslashes inside is copied |
| `Comments.LineCommentGoes` | src/cJSON.c:2789-2800 | a line comment goes with its line break and nothing behind it; an unterminated one goes with all that follows |
| `Comments.BlockCommentGoes` | src/cJSON.c:2802-2814 | a block comment goes up to the first star and slash behind its opening; one that is not closed goes to the end |
| `Minifier.ScanLiteral` | src/cJSON.c:2816-2836 | every literal without such a byte is copied as it is, and on which side of a literal the filter then takes itself to be |
| `Minifier.FilterTree` | src/cJSON.c:2838-2884 | filtering the text of a tree, in phase or out of it, removes blanks between tokens and nothing else, when no blank or slash inside a literal is met out of phase |
| `Minifier.MinifyStripsExactly` | src/cJSON.c:2816-2884 | for every document text, the output is the text without the blanks between its tokens if and only if no blank or slash inside a literal is met out of phase; otherwise bytes of a literal are lost |
| `Comments.CommentsGo` | src/cJSON.c:2838-2884 | a document with any comments between its tokens, none of them met inside a literal, minifies to the stripped text of the document without them |
| `Comments.CommentedIsAccepted` | src/cJSON.c:2838-2884 | and that text is accepted with the document's value, exactly when it nests within the limit |
| `Comments.PlainIsHeard` | src/cJSON.c:2816-2836 | when no literal has a backslash right before its closing quote, no comment between tokens is met inside a literal |
| `Minifier.MinifyKeepsMeaning` | src/cJSON.c:2816-2884 | for every tree that the text is the text of: if no blank or slash inside one of its literals is met out of phase, the minified text is accepted with the same value when the nesting is within the limit and both are rejected otherwise; that is so whenever no literal has a backslash right before its closing quote |
| `Minifier.MinifyCanChangeMeaning` | src/cJSON.c:2816-2836 | a text with such a literal that is accepted before and after minifying with different values |
| `Minifier.SkipLineComment` | src/cJSON.c:2789-2800 | the loop stops where the filter's line comment ends, behind its newline or at the terminator |
| `Minifier.SkipBlockComment` | src/cJSON.c:2802-2814 | the same for block comments |
| `Minifier.MinifyString` | src/cJSON.c:2816-2836 | the literal is copied to the write cursor within the same buffer, also when it is unterminated |
| `Minifier.MinifyStep` | src/cJSON.c:2847-2878 | one turn of the loop copies and skips what the filter does, and the write cursor does not pass the read cursor |
| `Minifier.Minify` | src/cJSON.c:2838-2884 | the buffer holds the filtered text of the original as a C string, for every input, and nothing from the old terminator on changes |
| `Siblings.GetArrayItem` | src/cJSON.c:1851-1878 | the child at an index, NULL for a negative or too large index or no container |
| `Siblings.AddItemToArray` | src/cJSON.c:1956-1987 | the children become the old ones followed by the item if and only if the list was empty or the item had no `next`; only sibling links and the container's `child` change |
| `Siblings.DetachItem` | src/cJSON.c:2187-2221 | the children become the old ones without the item, whose `next` and `prev` are NULL |
| `Siblings.InsertItemInArray` | src/cJSON.c:2263-2290 | the item comes before the child at the index, or to the end as by appending; a negative index changes nothing |
| `Siblings.ReplaceItem` | src/cJSON.c:2292-2339 | the replacement takes the item's place in the sequence, and exactly the item's own tree is released |
| `Siblings.RoundedIsChildren` | src/cJSON.c:1515-1523 | the chains that the parser and the duplicator finish are such lists of children |
| `Siblings.RunEdits` | src/cJSON.c:1956-2339 | over every run of append, detach, insert and replace with unlinked new items, the list keeps its shape, is what the same run makes of the sequence, and every node keeps its own tree |
| `Comparison.SameNumberIsEquality` | src/cJSON.c:538-542 | the tolerance is equality on 32-bit integers |
| `Comparison.ToleranceIsRelative` | src/cJSON.c:538-542 | the tolerance does not change when both numbers are scaled |
| `Comparison.ToleranceAtOne` | src/cJSON.c:538-542 | 1 and a number that is not larger are the same exactly when they differ by at most 2^-52; the order does not matter |
| `Comparison.LookupDenotes` | src/cJSON.c:1880-1910 | among named members, lookup is lookup in the finite map that they denote |
| `Comparison.CompareDecides` | src/cJSON.c:2986-3109 | on 32-bit numbers, comparing holds if and only if in both trees the members of every object are named and those of one name denote the same, and the trees denote the same |
| `Comparison.CompareSelf` | src/cJSON.c:3068-3104 | a tree with 32-bit numbers compares equal to its copy if and only if, at every level, members are named and those of one name denote the same |
| `Comparison.CompareIsEquality` | src/cJSON.c:2986-3109 | on trees with distinct non-null names and 32-bit numbers, comparing holds if and only if the denotations are equal |
| `Comparison.CompareIsEquivalence` | src/cJSON.c:2986-3109 | on all trees with 32-bit numbers it is symmetric and transitive, and reflexive where members of one name denote the same |
| `Comparison.CompareIgnoresOrder` | src/cJSON.c:3068-3104 | objects whose members are a permutation of each other compare alike with everything, and are equal when members of one name denote the same |
| `NodeComparison.GetObjectItem` | src/cJSON.c:1880-1910 | the walk finds the node of the member that lookup gives, NULL when there is none |
| `NodeComparison.CompareNodes` | src/cJSON.c:2986-3109 | whatever nodes they share or borrow: trees whose values compare equal are equal, and equal trees with 32-bit numbers denote the same; trees without a shared node compare exactly as their values do, a node equals itself, and NULL equals nothing |
| `NodeComparison.CompareChains` | src/cJSON.c:3044-3066 | the loop over two arrays is element-wise comparison of equal lengths |
| `NodeComparison.CompareMembers` | src/cJSON.c:3068-3104 | both passes of lookups: the maps that the members denote are equal when they succeed |
| `NodeComparison.CoveredChain` | src/cJSON.c:3072-3085 | one pass over the members: each is found in the other object with an equal value |
| `NodeComparison.CompareTrees` | src/cJSON.c:2986-3109 | on consistent trees with 32-bit numbers, shared nodes or not, the answer is equality of what they denote |
| `Duplicator.CopyString` | src/cJSON.c:188-207 | a new block with the same C string, or nothing |
| `Duplicator.CopyName` | src/cJSON.c:2736-2743 | a constant name is the same pointer, any other a new block with the same C string |
| `Duplicator.CopyNode` | src/cJSON.c:2718-2743 | a new node with kind, number and copies of both strings that owns its contents also when the original is a reference; a constant name is shared and stays flagged; a refusal gives back what was taken |
| `Duplicator.CopyKids` | src/cJSON.c:2749-2772 | the loop builds a chain of copies that reads as all the children and borrows exactly their constant names |
| `Duplicator.Duplicate` | src/cJSON.c:2706-2787 | whatever the original borrows: a recursive copy reads as the same value, owns new blocks only, borrows no contents and exactly the constant names of the original in order, and has every list closed; a shallow one has no children; a refusal leaves the heap as it was |
| `Duplicator.DuplicateThenCompare` | src/cJSON.c:2706-2787 | with 32-bit numbers, a copy compares equal to its original if and only if members of one name denote the same at every level |
| `Framing.FramesDelimitThemselves` | src/unix_socket.c:249-306 | no two sequences of frames have the same bytes |
| `Framing.CallsDetermined` | src/unix_socket.c:249-368 | the answers split into the calls for given frames in one way only |
| `Framing.Socket.SendBlock` | src/unix_socket.c:316-335 | the sending loop puts a front part of the block on the wire, all of it exactly when no planned answer ended the connection and the transient errors stayed within the budget |
| `Framing.Socket.RecvBlock` | src/unix_socket.c:257-275 | the receiving loop, likewise, fills the buffer with the next bytes of the stream; the answers are those planned, unless the stream has run out |
| `Framing.Socket.SendFrame` | src/unix_socket.c:308-368 | head and body on one budget of 2000 retries: a front part of the frame goes out, all of it exactly when the answers were clean, within 8 + bodylen + 2001 calls |
| `Framing.Socket.RecvFrame` | src/unix_socket.c:249-306 | exactly the next frame is taken when the answers were clean, less than a frame otherwise; at most 2001 calls more than bytes |
| `Framing.SendFrames` | src/unix_socket.c:308-368 | a sequence of frames goes out whole, or up to a failed frame of which a proper front part is on the wire; each call before was clean on a budget of its own, the failed one was not, and all answers are logged and were planned |
| `Framing.RecvFrames` | src/unix_socket.c:249-306 | from a stream that starts with some frames, the receiver gets these frames in order, up to the first call that was not clean by itself; all answers are logged and were planned |
| `Framing.Relay` | src/unix_socket.c:249-368 | any frames, in any pieces on both sides, whatever the two kernels plan to answer: the receiver reads exactly the bytes that the sender wrote, and recovers exactly the frames with nothing left over if and only if every call of either side was clean on its own budget of 2000 transient errors |
| `Protocol.Round4` | include/icehydra_util.h:65 | the room for a list of ids is the next multiple of four |
| `Protocol.SetPureHead` | src/conf.c:194-213 | the fields of a head after writing in place, with 16-bit and 8-bit truncation; a negative argument leaves its field |
| `Protocol.SetBroadcastHead` | src/conf.c:215-220 | the same with the id list counted into the body length |
| `Protocol.SetBroadcastField` | src/conf.c:222-246 | the count in the head, and the ids behind it or in another buffer, also when that is the head itself; nothing else changes |
| `Protocol.BuildFront` | icehydra.c:45-56 | head, ids and zero padding of a broadcast of at most 56 ids |
| `Protocol.SendBroadcast` | icehydra.c:45-63 | succeeds if and only if both of its calls are clean, each on a budget of its own, and then the client frame is on the wire |
| `Protocol.Rewrite` | src/conf.c:272-282 | rewriting in place turns the buffer into the head of the forwarded frame and leaves the payload where it is, also when the list claims more than the body holds |
| `Protocol.ClientToSubscriber` | icehydra.c:45-63 | the broker reads back the client's ids, and forwards the unchanged payload and command id with broadcast count 0 and body length equal to the payload's |
| `Protocol.ClientBytesAre` | icehydra.c:45-63 | the client frame byte by byte: `IH`, the length in little-endian order, 1, 188, the count, 0, the ids, zeros up to a multiple of four, the payload |
| `Protocol.ForwardedBytesAre` | src/conf.c:272-282 | the forwarded frame byte by byte for any buffer, also when the list claims more than the body holds |
| `Protocol.ReplyFrame` | src/conf.c:304-335 | there is a reply exactly for the number of shared memories and, when there are any, for their descriptions; it is a frame of the reserved kind with the command's own id and that body |
| `Broker.AcceptKeeps` | main.c:134-156 | accepting keeps the invariant: with distinct names at most one node takes the new descriptor |
| `Broker.BearerTakesIt` | main.c:144-149 | a peer at `/run/shm/`, a name and `-sock` gives its descriptor to exactly the node of that name, and to nobody when there is none |
| `Broker.DropKeeps` | main.c:76-78 | closing a node's descriptor keeps it |
| `Broker.DroppedIsReached` | include/icehydra_util.h:35-38 | a send to a node that was closed has nothing to do and succeeds |
| `Broker.NeverConnectedFails` | src/unix_socket.c:308-368 | a send to a node that never connected fails and writes nowhere |
| `Broker.SendKeeps` | src/unix_socket.c:308-368 | a whole frame to a node keeps it |
| `Broker.FailKeeps` | main.c:187-193 | a failed send followed by the close of that node keeps it |
| `Broker.BroadcastKeeps` | src/conf.c:272-302 | a broadcast, complete or cut short, keeps it |
| `Broker.StepKeeps` | main.c:113-195 | every step keeps it, for all connections but given ones, never reopens a connection and writes on open ones only |
| `Broker.ReplyFailKeeps` | main.c:178-181 | a failed reply, which is followed by no close, spoils at most the connection it was sent on |
| `Broker.RunIsSafe` | main.c:113-195 | in every run: no two nodes share a positive descriptor, every connection carries whole frames and at most one torn one behind them, and a connection with a torn frame never changes again |
| `Broker.AnyRunIsSafe` | main.c:113-195 | in every run, whatever replies fail, and for any two times: no two nodes share a positive descriptor, connections that are closed at the first are the same at the second, every connection without a failed reply is framed, and one that is torn never changes again |
| `Broker.OnceConnected` | main.c:113-195 | in every run, a node that has been connected at some time is reached ever after: it never again looks like one that never connected |
| `Broker.SpoiledIsFramed` | main.c:178-181 | the first failed reply leaves its connection framed, with a torn frame at its end |
| `Delivery.SpoiledStaysFramed` | main.c:178-194 | it stays framed and unchanged through every step that closes, accepts, ignores, or sends and fails to send to others only |
| `Broker.FrameBehindTorn` | src/unix_socket.c:308-368 | a frame written behind a torn one leaves the connection framed if and only if the two commute |
| `Broker.FailedReplyBreaksFraming` | main.c:178-181 | a broadcast behind any non-empty front of any reply breaks the framing of that connection, whatever the reply and the payload |
| `Delivery.CountRecipients` | src/conf.c:290-299 | a node is a recipient as often as its id is listed |
| `Broker.CopiesAreOccurrences` | src/conf.c:292-298 | the copies for an id are its occurrences in the list |
| `Delivery.BroadcastDelivers` | src/conf.c:272-302 | without failures, the bytes of every connected node's stream grow by one forwarded frame per occurrence of its id, and no other stream changes |
| `Delivery.FailureCutsInRingOrder` | src/conf.c:290-299 | on a failure, the streams of nodes earlier in the ring have grown by all their copies, later ones by none, and the failing one by some whole copies and a proper front of the next, on a closed connection |
| `Delivery.CopiesArrive` | src/conf.c:272-302 | when no listed node is one that never connected and every send is clean, each connection grows by exactly one payload frame per occurrence of its holder's id, and by nothing else |
| `Delivery.Publish` | icehydra.c:45-63 | from the client's call to the subscribers' streams, with every answer tied to the plans and logs of both sockets: the call succeeds if and only if both of its sends were clean, the broker receives it if and only if its answers were clean and closes the node otherwise; when every send behind it is clean too and no listed node is one that never connected, the payload arrives with the same bytes and command id, count 0 and its own length, once per occurrence, and nothing arrives elsewhere |
| `Delivery.PublishAfter` | icehydra.c:45-63 | the same after any events: when the listed nodes have each been connected at some time, whether they still are or not, and all calls are clean, every one that still is gets its copies |
| `Delivery.RecvData` | icehydra.c:74-100 | the next frame of the stream: its body and length, and whether it describes shared memory, if and only if the answers were clean; otherwise no whole frame was taken |
| `Delivery.ReceiveCopies` | icehydra.c:74-100 | a subscriber that reads its stream behind such a broadcast gets exactly as many payload frames as its id was listed, if and only if its receives are clean, and then nothing is left over |
| `MainLoop.Server.SendTo` | src/unix_socket.c:308-368 | succeeds if and only if the node was closed before, or is connected and the planned answers are clean; then the frame is on the wire, else a proper front part of it |
| `MainLoop.Server.BroadcastToNode` | src/conf.c:292-298 | the inner loop sends one copy per occurrence with clean answers, or stops at the copy whose answers were not clean; all answers are logged and were planned |
| `MainLoop.Server.BroadcastAll` | src/conf.c:290-299 | the loop over the ring sends to the recipients in order, each send with clean answers; the first other one ends it and returns the negated id of its node |
| `MainLoop.Server.BroadcastCmd` | src/conf.c:272-302 | the forwarded frame goes along the recipients of the listed ids, up to the first send that the planned answers make fail |
| `MainLoop.Server.Accept` | main.c:134-156 | the node that bears the peer's name takes the descriptor |
| `MainLoop.Server.FindNode` | src/conf.c:164-177 | the first node with that id |
| `MainLoop.Server.PassOn` | main.c:187-193 | a broadcast and, exactly when a send failed, the close of the node whose send it was; all answers are logged and were planned |
| `MainLoop.Server.Reply` | src/conf.c:304-335 | the node that asked gets exactly the reply of its command when the planned answers are clean, a front part of it otherwise; other commands change nothing and take no answer |
| `MainLoop.Server.Receive` | main.c:166-172 | the zeroed receive buffer holds exactly the next frame if and only if the answers were clean; they are those planned whenever a whole frame has come |
| `MainLoop.Server.Serve` | main.c:158-194 | a ready node is one step: closed exactly when the planned answers to the receive are not clean, else answered, ignored or broadcast by the command's kind; when a reply fails, a proper front of it is on the wire and nothing else has changed |
| `MainLoop.Server.Handle` | main.c:127-194 | one event has exactly the effect that its kind and the planned answers prescribe |
| `MainLoop.Server.Run` | main.c:113-195 | the loop goes through one state per event, each what the event and the logged answers make of the one before; together they are a run of the relation, whatever replies fail, and every node that has been connected is reached from then on |
| `Rings.InitListHead` | include/list.h:23-27 | an empty ring |
| `Rings.AddBetween` | include/list.h:35-43 | the entry comes between two neighbours of the circle |
| `Rings.ListAdd` | include/list.h:53-56 | the entries become the new one followed by the old ones |
| `Rings.ListAddTail` | include/list.h:66-70 | the entries become the old ones followed by the new one |
| `Rings.ListDel` | include/list.h:79-93 | the entries become the old ones without the one deleted, whose own links stay |
| `Rings.ListMove` | include/list.h:100-104 | the entry leaves its list and comes to the front of the other |
| `Rings.ListMoveToFront` | include/list.h:100-104 | the same within one list |
| `Rings.ListEmpty` | include/list.h:122-125 | true exactly for no entries |
| `Rings.ListSplice` | include/list.h:127-150 | the entries of one list come to the front of the other |
| `Rings.ListSpliceInit` | include/list.h:159-166 | the same, and the first list is an empty ring again |
| `Rings.Walk` | include/list.h:182-183 | the traversal visits the entries once each, in order, and ends |
| `Config.FirstDocument` | src/cJSON.c:1095-1140 | an object text behind blanks is read without looking at what follows |
| `Config.SettingIsHad` | src/conf.c:87-115 | by the places of members: a setting is the value of the first member whose name equals the key up to case, if it has exactly the key's bytes |
| `Config.SaysWhatItHas` | src/conf.c:87-115 | under `ih-name`, `ih-pid` and `ih-cpu_bind`, in bytes, strings and 32-bit numbers are taken as they stand, and what is missing is empty or 0 |
| `Config.TextDocuments` | src/conf.c:127-163 | repeated parsing of the text of any objects, with blanks before and behind each, finds their values in order and then stops |
| `Config.FileDocuments` | src/conf.c:127-163 | whatever follows a NUL, a file finds the values of the objects before it in order |
| `Config.TakeDocument` | src/conf.c:140-153 | one document: a node with id 0 starts a new ring, any other joins the present one at its end; name, id and processor are what the first members that bear the keys say |
| `Config.LoadDocuments` | src/conf.c:136-158 | the loop ends for every file; the first id decides whether it is refused, and the ring holds the nodes behind the last document with id 0, each as its document says |
| `Config.GetNodeStart` | src/conf.c:127-163 | for every file, read up to its first NUL: refused exactly when the first document's id is not 0; otherwise the ring holds the nodes behind the last document with id 0 in file order, each with the name, id and processor of its members, and the link count is the number of documents less one |
| `Config.LoadFile` | src/conf.c:127-163 | for a file that holds n objects before its first NUL, the first with id 0 and the others not: the ring holds the nodes of documents 2 to n in order, each with the name, id and processor of its members, and the link count is n - 1 |

## Left out

- Floating point: rounding by `strtod`, printing with `%1.15g`, NaN, infinities and locale decimal points.
- `cJSON_Raw` items.
- Positions.FailsNotTooEarly: bounds the place of an error from one side for every text; the exact places are stated for the errors in `Failures`, and not for a malformed `\u` escape.
- `cJSON_ParseWithLength` on buffers that do not end with a NUL, and NULL arguments of the parsing entry points.
- `cJSON_PrintBuffered`, and a growable print buffer of length 0 without `realloc`, where the manual copy would read one byte of an empty block.
- Case-insensitive comparison of objects; case-insensitive lookup is modelled in `Config` only.
- `cJSON_Create*`, `cJSON_Add*ToObject`, `cJSON_Is*`, hook setup and the by-name editing calls: one-step members on top of those modelled.
- Minifier.MinifyKeepsMeaning: is exact on the bytes (`Minifier.MinifyStripsExactly`) and goes one way on values. A byte that is lost from a string does not always change the value: it may lie behind an escaped NUL, where nothing reads it, or in digits that are bad before and after.
- Config.GetNodeStart: reads documents with the parser function instead of the heap parser, leaves out shared memory, and takes a name only from a string; the code copies the name without checking its kind or its length of at most 31 bytes. A file without any document makes the code write through a null pointer; the model reports it as an outcome.
- MainLoop.Server.Run: takes the descriptors that one `select` reports one at a time, and leaves out `link_count`, which nothing reads.
- Framing.Socket.RecvFrame: requires that the frame fits the caller's buffer, which the code does not check.
- Framing.RecvFrames: requires the same of each frame.
- Delivery.RecvData: requires the same of the body, and leaves out the close of the client's descriptor.
- MainLoop.Server.Serve: takes the input of a connection as given with each event; what one frame leaves unread is not carried to the next event.
- Printer.Print: walks the value that the nodes stand for instead of the nodes.
- MainLoop.Server.Receive: assumes that the frame fits the 4096-byte buffer, which the code does not check.
- Sockets below the stream: creation, binding, `select`, descriptor passing, the client's `wait_all` handshake and `ih_get_shm_infos`.
- The singly linked lists of `include/list.h`, which nothing in the repository uses.
- Shared memory, file locks, CPU binding, daemonising, argument parsing and debug printing.

# The cJSON engine, modelled and verified

This project models the JSON engine of `cJSON/cJSON.c` (version 1.7.14) in Dafny and proves
what it does: the parser, the printer with its growing buffer, the tree of items with its
doubly linked lists of children, and the in-place minifier. `dafny verify dfyconfig.toml`
checks everything.

Each part has a reference layer of pure functions and a layer of methods in the shape of the
C code that are proved to compute exactly what the reference says:

| files | what they hold |
|---|---|
| `Text`, `Decimals`, `Utf`, `Strings` | C strings, decimal numbers and their text, UTF-16 to UTF-8, string literals |
| `Notation`, `Layout` | what printed numbers look like, and how printed text is laid out |
| `Values`, `Parsing`, `RoundTrip` | trees as values, the text of a tree, the value of a text, and how the two undo each other |
| `Grammar`, `Rfc`, `Language`, `Marks` | the exact language of the parser as a grammar, that of RFC 8259 within it; the byte order mark |
| `Numerals`, `Quotes`, `Prefixes` | what a numeral is worth and which one is taken, what any literal denotes, parsing without asking for the end of the text, the limits in figures |
| `Minify`, `MinifyLaws` | the in-place minifier, its idempotence, its effect on printed text |
| `MinifyWalk`, `MinifyTokens`, `MinifySteps`, `MinifyImage`, `MinifyMeaning` | where its walk stands relative to the string tokens, and when the minified text means the same |
| `SlashCount`, `MinifyPhases` | the slashes of a text and of its tree, and that the minifier drops none for nothing without changing the tree |
| `Hooks` | the allocator: an arbitrary pattern of refused requests, and the set of live blocks |
| `Nodes`, `Trees`, `Lists`, `Meanings` | items in memory: links, ownership, deletion, lists that grow, the value of an item |
| `Copies`, `Edits`, `Runs`, `Readings` | duplication, list edits that allocate or free, runs of edits, and what the edited list stands for |
| `Literals`, `Parser` | the parser over a cursor, building items |
| `Printing` | the print buffer and the entry points |
| `Compare`, `Laws` | comparison, and laws that combine operations |

How things are represented:

- A byte is a `char`. A C string is a `string` without NUL; a buffer to be parsed carries its
  NUL as the last byte, as `cJSON_ParseWithOpts` arranges.
- A number is an exact decimal (sign, digits, exponent) in one canonical form. `%1.15g`, with and
  without an exponent, and `strtod` are functions on such decimals. They agree with C for up to
  15 significant digits within the range of doubles (`1e400` is infinity in C).
- An item is an object with `next`, `prev`, `child`, the type flags, `valuestring`, `number` and
  `string` (called `key`). A filled string block is an immutable object.
- The hooks hold a fixed but arbitrary function that says which allocation request is granted.
  `live` is the set of blocks handed out and not given back, `requests` counts the requests so far,
  and `moved` the bytes copied from block to block. `Granted(from, to)` says that every request from number `from` up to number `to` was granted;
  contracts use it for exactly the requests made during the call. Giving back a block demands that
  it is live, so no block is given back twice.
- Methods take ghost arguments that describe the shape of the tree they are given: `Forest` is
  the list of siblings with their descendants, and a `Value` is what an item stands for.
- Bits that C ors into clear positions are added; shifts and masks are divisions and remainders.

Where the code and its documentation differ, the model follows the code:

- `cJSON.h:162` advises five spare bytes for `cJSON_PrintPreallocated`. The code needs exactly
  two bytes more than the text, one of them for the NUL.
- `cJSON.h:257` says that minifying removes blanks from strings. It leaves strings as they are,
  as long as its walk stays in step with them (`MinifySteps`, `MinifyMeaning`).
- A `\u` escape with a bad hex digit does not fail: it reads as U+0000.

## Model

| member | source | states |
|---|---|---|
| Decimals.StrtodInvertsText | cJSON/cJSON.c:305-379 | `strtod` reads the text of every decimal, positional or with an exponent, to its end and gives the decimal back |
| Decimals.NormalizeKeeps | cJSON/cJSON.c:353-376 | bringing a number to its canonical form keeps its value: scaled by the same power of ten, both forms are the same integer |
| Notation.NumberForm | cJSON/cJSON.c:567-576 | for a number from 10^m up to 10^(m+1): an exponent is written if and only if m is below -4 or at least 15; no zero is written that could be left out, in front or behind; with an exponent one digit, not zero, stands in front of the point, the exponent is m, has a sign always and at least two digits |
| Notation.ZeroForm | cJSON/cJSON.c:567-576 | zero is written as `0`, or as `-0` with its sign |
| Notation.DigitCounts | cJSON/cJSON.c:305-379 | each digit of a run of digits counts its power of ten |
| Decimals.ShortFits | cJSON/cJSON.c:569-582 | the text of every decimal of at most 15 significant digits, in either notation and with at most three exponent digits, stays within the 25 characters `print_number` allows (22 are enough); `Values.PreciseIsPrintable` carries it to trees |
| Values.PreciseIsPrintable | cJSON/cJSON.c:545-608 | every tree of valid types whose numbers have at most 15 significant digits and lie well within the range of doubles can be printed; such numbers are what C prints |
| Utf.DecodeInvertsEncode | cJSON/cJSON.c:711-758 | a strict UTF-8 decoder in the sense of section 3 of RFC 3629 gives back every sequence of scalar values from its encoding |
| Utf.EncodedBits | cJSON/cJSON.c:711-758 | the table of section 3 of RFC 3629: the first byte's range says how many follow, those lie from 0x80 to 0xBF, all bits together are the code point, and no shorter form exists |
| Utf.Utf16InvertsUnits | cJSON/cJSON.c:666-709 | scalar values spelled as UTF-16 code units combine to the same scalar values |
| Utf.PairsInOrder | cJSON/cJSON.c:687-709 | the surrogate pairs, in order, are the code points from 0x10000 on, one by one |
| Strings.QuoteRead | cJSON/cJSON.c:898-1017 | a printed string is parsed back to itself wherever it stands in a buffer, and the parser stops right behind it |
| Strings.EscapeNulFree | cJSON/cJSON.c:970-1011 | escaped text holds no NUL, whatever bytes were escaped |
| Strings.ByteWritten | cJSON/cJSON.c:925-1011 | how each byte is written: the seven two-character escapes, `\u00` and two lower-case hex digits for the other control bytes, every other byte as it is |
| Strings.EscapeJoins | cJSON/cJSON.c:970-1011 | a string is written byte by byte |
| Strings.ShortEscapes | cJSON/cJSON.c:830-866 | the byte that each letter behind a backslash stands for; any other letter but `u` is an error |
| Strings.HexSpelled | cJSON/cJSON.c:611-644 | four bytes have the value `u` if and only if they spell it in hex digits, each in either case; with any other byte among them the value is 0 |
| Strings.ClosingQuote | cJSON/cJSON.c:782-812 | the first pass finds the first quote behind an even number of backslashes |
| Strings.StepFits | cJSON/cJSON.c:817-873 | one step of the decoding pass stays within the bytes left for it, also when bad hex digits have put it one byte out of step with the first pass |
| Strings.OutputFits | cJSON/cJSON.c:784-812 | for every literal, well-formed or not, decoded bytes never exceed content length minus skipped bytes |
| Strings.ParseLiteral | cJSON/cJSON.c:769-895 | a literal made of plain bytes, two-character escapes and `\uXXXX` units parses to what section 7 of RFC 8259 says it denotes, and fails exactly when a surrogate stands alone |
| Strings.UnitsMeaning | cJSON/cJSON.c:648-766 | a literal of `\uXXXX` units denotes the UTF-8 encoding of the UTF-16 text they spell, and nothing if that text is ill-formed |
| Strings.ScalarsRead | cJSON/cJSON.c:648-895 | every text that spells scalar values as `\uXXXX` escapes and surrogate pairs, hex digits in either case, between quotes, is parsed to their UTF-8 text up to the first NUL, and that UTF-8 text decodes strictly to the same scalar values |
| Parsing.ParsedTree | cJSON/cJSON.c:1442-1446 | whatever the text, a parsed tree nests no deeper than the limit, and every item is of one of JSON's own types |
| Parsing.ParseValue | cJSON/cJSON.c:1308-1360 | success moves the offset strictly forward and leaves it inside the buffer |
| Numerals.NumeralMeans | cJSON/cJSON.c:305-379 | the value of a numeral is its digits, scaled by its exponent less the digits behind the point, with its sign |
| Numerals.NumberIsLongest | cJSON/cJSON.c:305-379 | at a digit or a minus sign, the longest numeral of at most 63 characters that stands there is taken, for what it spells; there is no number if none stands there |
| Quotes.QuotedCloses | cJSON/cJSON.c:782-812 | which bytes stand between the quotes of a literal |
| Quotes.QuotedDenotes | cJSON/cJSON.c:769-895 | every literal, well-formed or not, denotes a text if and only if it is made of pieces that denote it: plain bytes, escapes, code units, and four bytes that are not all hex digits, which read as 0 |
| Prefixes.LongestPrefix | cJSON/cJSON.c:1075-1168 | for every text: without asking for its end, the parser reads the longest beginning that does not end in a blank and is accepted to its own end, for the same tree; it fails if there is none |
| Prefixes.NestingLimit | cJSON/cJSON.c:1442-1446 | brackets and braces nested in any order are accepted if and only if there are at most 1000 |
| Prefixes.DigitLimit | cJSON/cJSON.c:305-353 | of a run of digits the first 63 are read, as the number they spell |
| RoundTrip.ParseInvertsPrint | cJSON/cJSON.c:1308-1821 | for every tree whose items are of JSON's own types and whose numbers can be printed, and both formats: parsing the printed text to its end gives the same tree if and only if the tree nests at most 1000 deep |
| RoundTrip.PreciseRoundTrip | cJSON/cJSON.c:1308-1821 | the same for every tree of such numbers, without asking whether they can be printed |
| RoundTrip.PrintIsCanonical | cJSON/cJSON.c:1091-1168 | for every accepted text whose numbers can be printed: printing the parsed tree and parsing again gives the same tree, with all of the printed text used |
| RoundTrip.Words | cJSON/cJSON.c:1308-1434 | the three words, printed and parsed |
| Layout.FormattedIsPretty | cJSON/cJSON.c:1535-1821 | for every tree of JSON's own types: unformatted output has no blank outside its string tokens; formatted output is that output with exactly these put in: a line end behind an opening brace, behind a comma between members and behind the last member, at the start of each such line as many tabs as brackets and braces are open there, a space behind a comma between items, a tab behind a colon |
| Grammar.GrammarIsParsed | cJSON/cJSON.c:1308-1707 | every text of the parser's grammar (any byte from 1 to 32 as space, numbers of at most 63 characters as `strtod` takes them, literals as the two passes of `parse_string` take them) is read to its end for the value it denotes, if and only if it denotes one and nests at most 1000 deep |
| Language.ExactLanguage | cJSON/cJSON.c:1060-1168 | a text is accepted to its end with a value if and only if it is spelled by the grammar, with a byte order mark in front or not, denotes that value, and nests at most 1000 deep |
| Rfc.RfcIsParsed | cJSON/cJSON.c:1308-1707 | every text of RFC 8259 (space at every place it allows, numbers of at most 63 characters, literals of plain bytes, escapes and units) is read to its end for the value it denotes, if and only if no surrogate stands alone and it nests at most 1000 deep |
| Rfc.LiteralDenotes | cJSON/cJSON.c:769-895 | a literal of RFC 8259 denotes what its plain bytes, escapes and code units denote |
| Marks.MarkIsIgnored | cJSON/cJSON.c:1060-1073 | with the byte order mark EF BB BF in front, every text is read for the same tree, ending three bytes later, and is rejected if it was rejected without; a second mark makes any text unacceptable |
| Minify.SkipOnelineComment | cJSON/cJSON.c:2780-2791 | the cursor ends behind the first line end, or at the NUL when none follows |
| Minify.SkipMultilineComment | cJSON/cJSON.c:2793-2805 | the cursor ends behind the first closing mark, or at the NUL when none follows |
| Minify.MinifyString | cJSON/cJSON.c:2807-2827 | moves the string copy to the output cursor, gives both cursors, and states the whole buffer afterwards |
| Minify.Minify | cJSON/cJSON.c:2829-2875 | in place, the buffer holds the minified text, a NUL, and behind it what was there before |
| MinifyLaws.TokenCopied | cJSON/cJSON.c:2807-2827 | the copy of a string token stops at the token's own closing quote if and only if no backslash stands right before that quote, or the text ends there |
| MinifyLaws.MinifyIdempotent | cJSON/cJSON.c:2829-2875 | minifying twice is minifying once, for every text |
| MinifyLaws.MinifyOfFormatted | cJSON/cJSON.c:1535-1821 | minifying formatted output gives exactly the unformatted output, for trees of JSON's own types in which no string or key ends in a backslash |
| MinifySteps.CleanIsInStep | cJSON/cJSON.c:2829-2875 | for every accepted text: outside strings the walk comes to every quote that opens a string token if and only if every token but the last has no backslash right before its closing quote |
| MinifyTokens.TokenLeft | cJSON/cJSON.c:2807-2875 | whatever the walk drops of a token without NUL, escaped slash or comment mark, what is left is read as one token, with the same text if and only if nothing was dropped |
| MinifyMeaning.MinifiedMeaning | cJSON/cJSON.c:2829-2875 | every accepted text in which each string token either keeps all its bytes or denotes no NUL and holds no escaped slash and no comment mark is accepted after minifying, and parses to the same tree if and only if no token loses a byte |
| MinifyMeaning.MinifyKeepsMeaning | cJSON/cJSON.c:2829-2875 | every text accepted to its end in which no string token loses a byte, and so every one whose tokens but the last have no backslash right before the closing quote, is accepted after minifying and parses to the same tree |
| SlashCount.TextSlashes | cJSON/cJSON.c:769-895 | an accepted text spells at least as many slashes, as they are or as code units, as its tree holds, and exactly as many if no escape is wrong or yields a NUL |
| MinifyPhases.Bound | cJSON/cJSON.c:2829-2875 | from wherever the walk stands, what is left of a text spells no more slashes than the text, but for one that a left-over backslash may begin |
| MinifyPhases.TokenTight | cJSON/cJSON.c:2807-2875 | while no slash is dropped for nothing, what is left of a token without NUL is one token, with the same text if and only if it loses no byte, also when a backslash is left over and joins a later `u002f` |
| MinifyMeaning.NulFreeMeaning | cJSON/cJSON.c:2829-2875 | for every accepted text whose string tokens denote no NUL, escaped slashes and comment marks included: the minified text is accepted with the same tree if and only if no string token loses a byte |
| MinifyMeaning.MinifyCanChangeMeaning | cJSON/cJSON.c:2807-2827 | a text can lose its meaning: a concrete accepted text, with a token but the last ending in a backslash, whose minified form parses to another tree |
| Hooks.Hooks.Reallocate | cJSON/cJSON.c:156-184 | a granted request gives a new block of the size asked for with the old bytes, and takes the old block back; a refused one changes nothing |
| Nodes.LinkedIsUnique | cJSON/cJSON.c:1952-1983 | the links of an item determine its list of children |
| Nodes.GetArraySize | cJSON/cJSON.c:1824-1845 | the number of children, 0 for NULL |
| Nodes.GetArrayItem | cJSON/cJSON.c:1847-1874 | the child at an index, NULL when the index is negative or too large |
| Nodes.AddItemToArray | cJSON/cJSON.c:1952-1983 | appends and keeps the list linked both ways; refuses NULL and adding an item to itself |
| Nodes.EditsAreSlices | cJSON/cJSON.c:2259-2286 | inserting and removing as sequences of children, each undoing the other |
| Nodes.InsertItemInArray | cJSON/cJSON.c:2259-2286 | inserts before the index or appends when it is too large, keeping the list linked both ways; refuses NULL and the array itself when the index is too large, a negative index and a NULL array |
| Nodes.DetachItemViaPointer | cJSON/cJSON.c:2183-2217 | removes the item, leaves the others linked both ways, and clears the item's own links |
| Trees.Delete | cJSON/cJSON.c:253-274 | gives back every owned item and string of the list and below it, each while it is live, and nothing else; targets of references and constant keys stay |
| Trees.BlocksAre | cJSON/cJSON.c:253-274 | what a list owns: its items and those below them, texts of items that are no references, keys that are not constant, and nothing else |
| Trees.KidsLinked | cJSON/cJSON.c:1952-1983 | in an owned tree that is linked backwards at every level, the children of an item form a proper doubly linked list |
| Trees.UnfoldsOnce | cJSON/cJSON.c:2744-2766 | following `child` and `next` reads one shape only |
| Lists.Attach | cJSON/cJSON.c:1481-1494 | a new item behind the tail, the list still whole up to the first item's backward link |
| Lists.Complete | cJSON/cJSON.c:1511-1516 | setting the first item's `prev` to the tail makes the list whole |
| Meanings.ValueUnique | cJSON/cJSON.c:1363-1434 | an item in memory stands for at most one value |
| Copies.NewItem | cJSON/cJSON.c:241-250 | a blank item in a new block if and only if the request it makes is granted, and nothing otherwise |
| Copies.Strdup | cJSON/cJSON.c:186-207 | the same text in a new block if and only if it is not NULL and the request it makes is granted, and nothing otherwise |
| Copies.Duplicate | cJSON/cJSON.c:2697-2778 | a copy alike at every level with reference flags cleared and constant keys shared, all of it new, linked both ways at every level, its own `next` and `prev` NULL; it succeeds if and only if the item is not NULL and every request made is granted, at most three per item; on failure the live blocks are those from before |
| Copies.CopyMeans | cJSON/cJSON.c:2715-2734 | a copy stands for the same value as the original |
| Copies.CopyStands | cJSON/cJSON.c:2697-2778 | a copy can be read item by item for that value, references having become owned children |
| Literals.ParseHex4 | cJSON/cJSON.c:611-644 | gives the number that four hex digits of either case spell, 0 when one of them is none |
| Literals.EncodeInto | cJSON/cJSON.c:711-760 | writes the UTF-8 bytes of a code point from the last to the first and touches nothing else |
| Literals.Utf16LiteralToUtf8 | cJSON/cJSON.c:648-766 | consumes 6 or 12 bytes and writes the bytes the escape stands for, or reports 0; nothing before the output position changes |
| Parser.ParseBuffer.SkipWhitespace | cJSON/cJSON.c:1034-1057 | skips bytes up to 32, NUL included, and steps back when it reaches the end |
| Parser.ParseBuffer.ParseString | cJSON/cJSON.c:769-895 | succeeds if and only if the reference function reads a string and every request made is granted, with exactly that string in one new block; otherwise the item and the live blocks are left alone |
| Parser.ParseBuffer.ParseNumber | cJSON/cJSON.c:305-379 | takes the longest numeral within 63 copied characters, gives the number it spells, and moves the offset behind it |
| Parser.ParseBuffer.ParseValue | cJSON/cJSON.c:1308-1360 | succeeds if and only if the reference function does and every request made is granted, with exactly its value and offset and the depth it started with, every block new, the tree owned and linked both ways; otherwise nothing stays allocated; it makes no more requests than it reads bytes |
| Parser.ParseBuffer.ParseArray | cJSON/cJSON.c:1437-1532 | the same for arrays, with the nesting limit, the step back before the loop, and the partial list freed on failure |
| Parser.ParseBuffer.ParseObject | cJSON/cJSON.c:1597-1707 | the same for objects, names being parsed as strings and moved to `string` |
| Parser.ParseWithOpts | cJSON/cJSON.c:1075-1168 | a tree if and only if the reference function accepts the text and every request made is granted, at most two more than the text has bytes; it stands for the function's value, with the end position; otherwise no block more is live than before |
| Printing.PrintBuffer.Grow | cJSON/cJSON.c:489-521 | makes one request, by realloc or by hand; if it is granted, a larger buffer keeps the bytes up to and including the offset, and otherwise the buffer is lost and freed; requests and moved bytes stay accounted for |
| Printing.PrintBuffer.Ensure | cJSON/cJSON.c:439-522 | succeeds if and only if the bytes fit the limit and the request it may have made is granted; each growth more than doubles the buffer or jumps to INT_MAX |
| Printing.PrintBuffer.UpdateOffset | cJSON/cJSON.c:525-535 | moves the offset to the NUL behind the text written last |
| Printing.PrintBuffer.PrintNumber | cJSON/cJSON.c:545-608 | writes the number's text, whose form `Notation.NumberForm` states, and a NUL, or fails when it is longer than 25 characters or does not fit |
| Printing.CountEscapes | cJSON/cJSON.c:925-955 | the first pass counts exactly the bytes by which escaping lengthens the string |
| Printing.PrintBuffer.WriteEscaped | cJSON/cJSON.c:970-1011 | the second pass writes exactly the escaped bytes; the NUL that `sprintf` puts behind `u%04x` stays inside the space the first pass asked for |
| Printing.PrintBuffer.PrintStringPtr | cJSON/cJSON.c:898-1017 | writes the quoted, escaped string and a NUL, the closing quote landing where the first pass put it |
| Printing.PrintBuffer.PrintValue | cJSON/cJSON.c:1363-1434 | writes exactly the text of the item's value behind what is there, and succeeds if and only if the tree can be printed, the text and two bytes fit, and every request made is granted |
| Printing.PrintBuffer.PrintArray | cJSON/cJSON.c:1535-1594 | the same for arrays, walking the children |
| Printing.PrintBuffer.PrintObject | cJSON/cJSON.c:1710-1821 | the same for objects, walking the children; `Layout.FormattedIsPretty` states where the line ends, tabs and spaces are |
| Printing.Print | cJSON/cJSON.c:1183-1256 | a block of exactly the text and a NUL; no other block is left over; it succeeds if and only if the tree can be printed, text plus two bytes stay within INT_MAX, and every request made is granted, of which there are at most 34; the bytes the allocator moves are linear in the length of the text |
| Printing.PrintBuffered | cJSON/cJSON.c:1258-1286 | the same text for every starting size of at least 1; it succeeds if and only if the size is positive, the tree can be printed, text plus two bytes stay within INT_MAX, and every request made is granted; each request but the first was one growth, the starting size doubled once per growth (but the last, if that jumped to INT_MAX) stays within the final size, which is at most the starting size or twice what the text needs, and the bytes moved are at most twice the final size |
| Printing.PrintPreallocated | cJSON/cJSON.c:1288-1305 | succeeds if and only if the tree can be printed and the stated length holds the text and two bytes; then the buffer holds the text and a NUL; the bytes from the stated length on stay as they are, and no block is allocated or freed |
| Compare.SameIsEqualMeaning | cJSON/cJSON.c:2977-3100 | for all trees, with any keys: the comparison accepts exactly the coherent trees of valid types that mean the same, arrays being sequences, objects finite maps from folded keys, and -0 being 0 |
| Compare.NumbersCompared | cJSON/cJSON.c:3013-3020 | two numbers compare equal, and mean the same, if and only if they are equal or both zero |
| Compare.SameParts | cJSON/cJSON.c:2977-3100 | the comparison type by type: equal texts, numbers equal or both zero, items pairwise; each member of either object against the first one of the other with the same key |
| Compare.FoldedAlike | cJSON/cJSON.c:133-154 | keys are the same under a case rule if and only if they are equal, or agree byte by byte but for the case of the 26 letters |
| Compare.UniqueParts | cJSON/cJSON.c:2977-3100 | unique keys: no two members of an object have the same key under the case rule, at every level |
| Compare.UniqueIsCoherent | cJSON/cJSON.c:3059-3095 | unique keys under the case rule make a tree coherent |
| Compare.SameIsEquivalence | cJSON/cJSON.c:2977-3100 | symmetric and transitive on all trees, reflexive exactly on coherent ones |
| Compare.CaseInsensitiveStrcmp | cJSON/cJSON.c:133-154 | 0 exactly when the keys have the same length and agree byte by byte, the case of letters apart |
| Compare.GetObjectItem | cJSON/cJSON.c:1876-1906 | the first member whose name is the same under the case rule, NULL when there is none |
| Compare.CompareItems | cJSON/cJSON.c:2977-3100 | on items in memory, invalid types included, with the shortcut for identical items: false is always right, and true is right whenever the trees share no item or are coherent; two numbers compare equal if and only if they are equal or both zero |
| Edits.DetachItemFromArray | cJSON/cJSON.c:2219-2227 | detaches the child at an index, or nothing when there is none |
| Edits.DeleteItemFromArray | cJSON/cJSON.c:2229-2232 | detaches the child at an index and frees exactly its blocks; a NULL array or a wrong index changes nothing |
| Edits.ReplaceItemViaPointer | cJSON/cJSON.c:2288-2335 | puts the replacement in the item's place, keeps the list linked both ways, and frees exactly the old item's blocks |
| Edits.AddItemToObject | cJSON/cJSON.c:2007-2053 | succeeds if and only if the arguments are proper and every request made is granted (none for a constant key): sets the key, copied or constant, frees the old key only once the new one is there, and appends; otherwise nothing changes; the item's key dangles afterwards if and only if it was passed as a constant key while the item owned it |
| Edits.CreateDoubleArray | cJSON/cJSON.c:2616-2654 | succeeds if and only if the arguments are proper and every request made is granted, at most one per number and one more: an array of the numbers in order, linked both ways, all of it new; otherwise nothing stays allocated |
| Runs.Run | cJSON/cJSON.c:1952-2335 | any sequence of appends, inserts, detachments and replacements keeps the list linked both ways, and the children are what the same edits make of a sequence |
| Readings.RunRead | cJSON/cJSON.c:1952-2335 | if an array or object stands for a value and any run of edits is made on its children, it can be read again, and stands for what the same edits make of the values or members |
| Readings.AddRead | cJSON/cJSON.c:2007-2053 | an object to which an item is added under a key stands for its members and the new one behind them |
| Laws.CopyThenCompare | cJSON/cJSON.c:2697-3100 | there is a copy if and only if every request made is granted, and comparing it with its original succeeds exactly for coherent trees, so always with unique keys |
| Laws.PrintThenParse | cJSON/cJSON.c:1075-1256 | printing an item and parsing the text gives an item with the same value, if and only if it can be printed, the text fits, the tree nests within the limit and every request made is granted; only the new tree's blocks remain; numbers of at most 15 significant digits can always be printed |

## Left out

- Floating point: rounding to a double, the second attempt with `%1.17g`, NaN and Infinity, the tolerance of `compare_double`, and the locale's decimal point. Numbers are exact decimals, printed with all their digits; one whose text is longer than 25 characters counts as not printable.
- The `valueint` copy of a number and its saturation.
- `cJSON_ParseWithLength` on buffers that do not end in NUL, and `cJSON_PrintBuffered` with size 0.
- NULL as the text to parse, and items whose `valuestring` or `string` is NULL where one is expected.
- The error position after a failed parse, and the other globals.
- Configuring the hooks, the version string, the `cJSON_Is*` tests and the `cJSON_Add*ToObject`, `cJSON_Create*` and `cJSON_SetValuestring` wrappers other than those in the table.
- Creating references (`create_reference`) and replacing by key (`replace_item_in_object`). Reference items themselves are covered by deletion, copying, printing and comparison.
- Misuse of the edit functions: adding an item that is in a list already, inserting NULL in front of an item, detaching from the wrong parent, cycles.
- The NUL the C code stores behind a filled string block: a filled block becomes an immutable object that holds the text up to the first NUL.
- The unreachable test for a lone backslash at the end of a literal (`cJSON/cJSON.c:827-830`).
- Minify.Minify: a NULL argument.
- MinifyMeaning.NulFreeMeaning: does not decide texts in which a string token denotes a NUL. What stands behind a NUL is not part of the tree, and a bad hex digit, which may be a blank, reads as a NUL, so a loss there can leave the tree as it was.
- Printing.PrintBuffer.PrintNumber: the second attempt with 17 digits is not modelled, so a decimal of more than 15 significant digits is printed whole where C rounds it to a double; `Values.AllPrecise` names the trees on which both agree.
- Runs.Run: the replaced item's memory is not freed inside a run; `Edits.ReplaceItemViaPointer` covers that.
- Edits.CreateDoubleArray: stands for the four array builders, which share their loop.
- The rest of the repository: server code, generated protocol buffers, scripts.

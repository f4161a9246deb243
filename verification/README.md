# Parsers, pool and protocols of the IoTivity tree: a verified model

The project models the code in this repository that parses, prints, allocates and synchronises, and proves what
it is relied on for.

**cJSON** (`iotivity/extlibs/cjson`). Values are trees of null, booleans, integers below 10^60 in magnitude,
NUL-free byte strings, arrays and objects. The parser is modelled twice: as functions of the text
(`JsonParse`, `JsonString`, `JsonNumber`) and as the code has it, a buffer whose offset moves
(`JsonParseBuffer`), two passes over a string into an array of computed size (`JsonStringMemory`). So is the
printer: the text of a tree (`JsonPrint`) and the growing or fixed buffer it is written through
(`JsonPrintBuffer`). `JsonRoundTrip`, `JsonMinify` and `JsonUnicode` connect them, and `JsonLoose` says what other
literals are accepted. `JsonPrinted` says what the printed text is by the standard. `JsonSyntax` and `JsonGrammar`
say which texts, written by anybody, are parsed and as what, from `JsonNumeral`, `JsonLiteral` and `JsonTokens` for
numbers and strings; `JsonMinifySyntax` does so for `cJSON_Minify`. `JsonList` and `JsonOwnership` are heap code:
linked siblings, references, what is freed and what is copied.

**RapidXML** (`iotivity/extlibs/rapidxml`). `XmlExpand` is the in-place expansion of references over the text
still being read, `XmlCondense` what its whitespace normalization leaves, and `XmlEscape` its counterpart in the
printer. `XmlTree` says what is read, as a function of
the original text, `XmlParse` is the parser that writes terminators over that text while reading it, and
`XmlRoundTrip` ties both to the printer; `XmlRecover` adds the expansion, so that the printed values come back.
`XmlSyntax`, `XmlReads` and `XmlGrammar` say which texts, written by anybody, are parsed and as what, under every choice
of flags, and `XmlFlags` what the flags leave of a printed document.
`XmlPool` is the bump-pointer pool with its chain of blocks, `XmlDom` the document whose pointers are partly
undefined, `XmlClone` the deep copy.

**Bridging** (`iotivity/bridging`). `WorkQueue` is a step relation for any number of threads around one mutex,
one condition variable (spurious wakeups included) and a shutdown; `WorkerProtocol` puts the two worker threads,
the API mutex, handlers that put work, other producers and the stopping thread around it; liveness is proved
for infinite fair schedules, and `WorkerItems` follows the items through both. `PipeProtocol` is the framing of
messages and the child's loop.

**LineInput** (`iotivity/examples/OICMiddle`) is the tokenizer over its 1000-byte scratch buffer.

Bytes are integers below 256. A value that code computes in a fixed width is written with that width where it
matters (the 64-bit code of a character reference, `INT_MAX` in the print buffer, the fields of a pipe message).
Two parsers of one thing, one in place and one a function, are tied by the method's `ensures`; what is promised
is then proved of the function.

Where the code and what is written about it differ, the model follows the code:

- numeric character references are accepted without digits, with the letters A-F among decimal digits, beyond 64
  bits, where the number wraps, and for numbers that XML 1.0 section 2.2 has no character for, NUL and surrogates
  among them (`XmlEscape.DecimalReferences` and `XmlEscape.HexReferences` say exactly which inputs differ from
  XML 1.0; `XmlEscape.NulReference` and `XmlEscape.SurrogateReference` are two of them);
- a number of more than 63 characters is cut by the parser's buffer, so a document that has one is not parsed to its
  end (`JsonGrammar.StandardRead` says exactly which documents of RFC 8259 are, `JsonGrammar.LongNumber` is one that
  is not);
- `cJSON_Minify` takes the three characters slash, star, slash for a whole comment (`JsonMinifySyntax.MinifiedIffCut`);
- `parse_hex4` returns 0 for a bad digit instead of failing, so \u may be followed by any four bytes, an escaped
  quote among them (`JsonLoose.AcceptedIffSpelled` says exactly what is accepted, `JsonLoose.QuoteAsDigits` and
  `JsonLoose.ClosingQuoteEscaped` are such inputs);
- `clone_node` measures empty attribute names and values again, which is only harmless when a NUL follows them
  (`XmlClone.ClonedSame`, and `XmlClone.EmptyValueGrows` for a text where they are not);
- the header's 63 extra bytes, the NUL not counted apart, suffice for every tree but a lone number of one digit
  (`JsonPrintBuffer.HeaderRoom`); 64 suffice for every tree (`JsonPrintBuffer.EnoughRoom`);
- a message of type MPM_NOMSG ends the child's loop as the end of the file does (`PipeProtocol.ServedFramed`);
- `parseLine` writes a value's characters without the length check it makes elsewhere; a write behind the scratch
  buffer is an outcome of its own (`LineInput.OverrunIff` says exactly when, `LineInput.OverrunningLine` gives a
  line);
- whitespace normalization does not condense the whitespace that references bring in (`XmlCondense.CondensedIff`
  says exactly when the result is condensed, `XmlCondense.ReferencesBringBlanks` gives a text where it is not).

## Model

| member | source | states |
|---|---|---|
| JsonNumber.IntegerTextLength | iotivity/extlibs/cjson/cJSON.c:441-495 | an integer printed with "%.0f" (magnitude below 1e60) has at most 61 characters, so the parser's 64-byte copy never cuts it |
| JsonNumber.CopyNumber | iotivity/extlibs/cjson/cJSON.c:226-250 | the copy loop takes exactly the longest run of number bytes, at most 63 of them |
| JsonNumber.ParseNumberAt | iotivity/extlibs/cjson/cJSON.c:215-287 | copying and then converting gives the number, and the offset moves by what the conversion consumed, not by what was copied |
| JsonNumber.StrToDInteger | iotivity/extlibs/cjson/cJSON.c:253-287 | the decimal conversion reads the printed form of every integer back whole |
| JsonNumber.ParsePrintedNumber | iotivity/extlibs/cjson/cJSON.c:215-287 | follow set of numbers: a printed integer is read back exactly whenever the next byte is no number byte |
| JsonString.ParseString | iotivity/extlibs/cjson/cJSON.c:656-782 | a successful parse ends just behind a closing quote, a failure points into the input |
| JsonString.ParseQuoted | iotivity/extlibs/cjson/cJSON.c:785-904 | for every NUL-free byte string, parsing the quoted and escaped text gives the string back and stops behind the quote |
| JsonString.UnescapeEscaped | iotivity/extlibs/cjson/cJSON.c:702-768 | the second pass undoes every escape the printer writes, control bytes as \u00XX included |
| JsonString.ScanEscaped | iotivity/extlibs/cjson/cJSON.c:671-690 | the first pass finds the closing quote of any printed string, whatever escapes it holds |
| JsonStringMemory.ParseHex4 | iotivity/extlibs/cjson/cJSON.c:498-533 | four hex digits give their value, and any bad digit makes the whole value 0 instead of an error |
| JsonStringMemory.EncodeInto | iotivity/extlibs/cjson/cJSON.c:611-647 | the backward loop writes exactly the UTF-8 encoding of the code point and leaves what is in front alone |
| JsonStringMemory.Utf16LiteralToUtf8 | iotivity/extlibs/cjson/cJSON.c:535-653 | surrogate pairs and single units: the consumed length, the written length and the bytes, or 0 for a bad literal |
| JsonStringMemory.ScanCountsEscapes | iotivity/extlibs/cjson/cJSON.c:671-690 | `skipped_bytes` is the number of backslash pairs of the first pass up to the closing quote |
| JsonStringMemory.EscapesSpread | iotivity/extlibs/cjson/cJSON.c:671-690 | escapes of the first pass begin at least two bytes apart |
| JsonStringMemory.UnescapeFits | iotivity/extlibs/cjson/cJSON.c:702-768 | the second pass, even out of step with the first after a bad hex digit, never writes more than the room the first pass left it |
| JsonStringMemory.OutputFitsAllocation | iotivity/extlibs/cjson/cJSON.c:656-782 | for every input, bytes written plus the NUL are at most (input_end - start) - skipped_bytes + 1 |
| JsonStringMemory.Step | iotivity/extlibs/cjson/cJSON.c:702-768 | one turn of the second pass writes inside the output and agrees with the functional unescape |
| JsonStringMemory.Fill | iotivity/extlibs/cjson/cJSON.c:693-775 | the second pass into an array of exactly the computed size gives the functional result with no write out of bounds |
| JsonStringMemory.ParseStringAt | iotivity/extlibs/cjson/cJSON.c:656-782 | both passes together refine the functional parser on every input |
| JsonUnicode.ParsedLiteralIsUtf8 | iotivity/extlibs/cjson/cJSON.c:535-653 | for every literal of the RFC 8259 section 7 grammar, of any length: it is accepted if and only if every surrogate is paired, and the output is then well-formed UTF-8 for exactly the code points denoted |
| JsonUnicode.WrittenIsRead | iotivity/extlibs/cjson/cJSON.c:535-782 | from the code points: every string of them, each written in any way RFC 8259 section 7 allows (as it is, with a letter, as one \u escape, or as the two of its surrogate halves, hex digits in either case), is read back as their UTF-8 |
| JsonLiteral.HalvesAgree | iotivity/extlibs/cjson/cJSON.c:576-593 | two surrogates combine to the code point 0x10000 + (high - 0xD800) * 1024 + (low - 0xDC00) |
| JsonLiteral.TablesAgree | iotivity/extlibs/cjson/cJSON.c:498-768 | the digit values and the one-letter escapes of the code are those of the standard |
| JsonLoose.AcceptedIffSpelled | iotivity/extlibs/cjson/cJSON.c:498-782 | exactly which texts are accepted, malformed ones included: the bytes up to the quote the first pass stops at are bytes that are no backslash, one-letter escapes, and \u with any four bytes (0 unless all are hex digits), every surrogate in a pair; and what is returned is what they denote |
| JsonLoose.UnescapeChunks | iotivity/extlibs/cjson/cJSON.c:702-768 | whatever cutting into such pieces covers the text, the second pass agrees with it, failing exactly on an unpaired surrogate |
| JsonLoose.QuoteAsDigits | iotivity/extlibs/cjson/cJSON.c:498-533 | concrete case: "\u12\"4" is accepted, its escaped quote taken for a digit, as a NUL and a 4 |
| JsonLoose.ClosingQuoteEscaped | iotivity/extlibs/cjson/cJSON.c:702-768 | concrete case: "\u123\\" is accepted, and its closing quote becomes part of the text |
| Utf8.DecodeFirstEncoded | iotivity/extlibs/cjson/cJSON.c:535-653 | the encoder's bytes decode, by the grammar of RFC 3629 section 4, to the code point they were made from |
| Utf8.DecodeEncodedAll | iotivity/extlibs/cjson/cJSON.c:535-653 | the same for any sequence of code points |
| Utf8.ContinuationMask | iotivity/extlibs/cjson/cJSON.c:630-637 | the mask arithmetic of the code is the remainder the model writes |
| JsonParse.SkipWhitespace | iotivity/extlibs/cjson/cJSON.c:921-939 | skipping whitespace, with the step back from the NUL, never leaves the text |
| JsonParse.ParseValue | iotivity/extlibs/cjson/cJSON.c:1145-1198 | every successful value moves the offset forward and leaves it at most on the NUL; every failure points into the text; the recursion ends by length - offset |
| JsonParseBuffer.ParseBuffer.Skip | iotivity/extlibs/cjson/cJSON.c:921-939 | the loop on the buffer's offset computes that position |
| JsonParseBuffer.ParseBuffer.Value | iotivity/extlibs/cjson/cJSON.c:1145-1198 | the imperative value parser, moving the offset in place, refines the functional one on every input, error positions included |
| JsonParseBuffer.ParseBuffer.ArrayItems | iotivity/extlibs/cjson/cJSON.c:1279-1362 | the do-while loop of arrays refines the functional list parser |
| JsonParseBuffer.ParseBuffer.ObjectMembers | iotivity/extlibs/cjson/cJSON.c:1425-1523 | the do-while loop of objects refines the functional member parser, duplicate keys kept in order |
| JsonParseBuffer.ParseWithOpts | iotivity/extlibs/cjson/cJSON.c:942-1020 | the entry point with its two options refines the functional document parser |
| JsonParseBuffer.PositionInInput | iotivity/extlibs/cjson/cJSON.c:942-1020 | for every C string the position returned or reported lies in the input or on its NUL, and with require_null_terminated a success is at the very end |
| JsonRoundTrip.ParsePrinted | iotivity/extlibs/cjson/cJSON.c:1145-1198 | a printed value, at any depth and in front of anything that may follow a value, is parsed back to the same tree and exactly to its end |
| JsonRoundTrip.RoundTrip | iotivity/extlibs/cjson/cJSON.c:1201-1276 | full round trip for every tree and both formats: parsing the printed text consumes exactly that text and rebuilds the tree in the same order |
| JsonNumeral.NumeralReads | iotivity/extlibs/cjson/cJSON.c:253-287 | a number text is read to its end as what its parts denote: sign, digits, point, fraction and exponent |
| JsonNumeral.ReadIffNumeral | iotivity/extlibs/cjson/cJSON.c:253-287 | and no other text is read to its end |
| JsonNumeral.DenotesReal | iotivity/extlibs/cjson/cJSON.c:253-287 | what the parts denote as a real number: the whole part plus the fraction, times the power of ten |
| JsonTokens.NumberRead | iotivity/extlibs/cjson/cJSON.c:215-287 | a number is read wherever it stands if it has at most 63 characters; a longer one stops the parser in front of one of its bytes |
| JsonSyntax.ValueRead | iotivity/extlibs/cjson/cJSON.c:1145-1523 | every value written by the grammar, with any blanks around every bracket, comma, colon and value, is parsed to exactly its end as the tree it stands for, members and elements in order; with a number longer than 63 characters in it, it is not |
| JsonGrammar.ValueHas | iotivity/extlibs/cjson/cJSON.c:1145-1523 | the other direction: whatever is parsed is written by the grammar |
| JsonGrammar.AcceptedIff | iotivity/extlibs/cjson/cJSON.c:942-1020 | cJSON_ParseWithOpts with the end required accepts exactly the documents of the grammar with no number longer than 63 characters, each as the tree it stands for |
| JsonGrammar.StandardRead | iotivity/extlibs/cjson/cJSON.c:942-1020 | every document of RFC 8259 whose strings denote code points is parsed as the tree it stands for if its numbers have at most 63 characters, and is not parsed to its end if one is longer |
| JsonGrammar.LongNumber | iotivity/extlibs/cjson/cJSON.c:226-250 | concrete case: the number of 64 ones is JSON and is not parsed to its end |
| JsonParseBuffer.DocumentRoundTrip | iotivity/extlibs/cjson/cJSON.c:1023-1028 | the same through cJSON_Parse and cJSON_ParseWithOpts |
| JsonPrintBuffer.PrintBuffer.Ensure | iotivity/extlibs/cjson/cJSON.c:317-394 | succeeds exactly when the request (and, growing, the new size) fits, keeps the text written so far and then has room for the request and one byte more |
| JsonPrintBuffer.PrintBuffer.UpdateOffset | iotivity/extlibs/cjson/cJSON.c:397-407 | strlen from the offset puts the offset at the end of the text |
| JsonPrintBuffer.PrintBuffer.PrintString | iotivity/extlibs/cjson/cJSON.c:785-904 | writes the quoted text, or fails exactly when `ensure` does |
| JsonPrintBuffer.PrintBuffer.PrintNumber | iotivity/extlibs/cjson/cJSON.c:441-495 | needs 64 bytes whatever the number, and writes its decimal text |
| JsonPrintBuffer.PrintBuffer.PrintValue | iotivity/extlibs/cjson/cJSON.c:1201-1276 | writes the text of the tree behind what is there, and succeeds exactly when every `ensure` on the way fits |
| JsonPrintBuffer.PrintBuffer.PrintArray | iotivity/extlibs/cjson/cJSON.c:1365-1422 | the array loop, separators and brackets included |
| JsonPrintBuffer.PrintBuffer.PrintObject | iotivity/extlibs/cjson/cJSON.c:1526-1635 | the object loop, with tabs, colon and line breaks in the formatted style |
| JsonPrintBuffer.PrintPreallocated | iotivity/extlibs/cjson/cJSON.c:1128-1142 | never writes at or beyond `len`, returns true exactly when every request fits, and then the buffer holds the text the growing printer gives |
| JsonPrintBuffer.PrintGrowing | iotivity/extlibs/cjson/cJSON.c:1030-1088 | the growing printer, whose first request always reallocates because the recorded length is 0, returns the text |
| JsonPrinted.PrintedIsJson | iotivity/extlibs/cjson/cJSON.c:1201-1635 | what is printed for a tree whose strings are UTF-8, in either format, is a text of RFC 8259 that stands for the tree |
| JsonPrinted.ArrayLayout | iotivity/extlibs/cjson/cJSON.c:1365-1422 | an array is its elements with commas between them, a space behind each comma in the formatted style |
| JsonPrinted.ObjectLayout | iotivity/extlibs/cjson/cJSON.c:1526-1635 | an object is its members with commas between them; in the formatted style each stands on a line of its own, one tab further in than the closing brace, with a tab behind its colon |
| JsonPrintBuffer.EnoughRoom | iotivity/extlibs/cjson/cJSON.h:136 | the header's "63 bytes bigger": a buffer of text length + 64, the NUL counted, always suffices, for every tree, depth and format |
| JsonPrintBuffer.NeedsRoom | iotivity/extlibs/cjson/cJSON.c:1128-1142 | no tree at all succeeds in less than text length + 2 |
| JsonPrintBuffer.HeaderRoom | iotivity/extlibs/cjson/cJSON.h:136 | the header's 63 with the NUL not counted apart suffices, wherever in the buffer and at whatever depth, for every tree that is not a lone number of one digit, and for none that is |
| JsonPrintBuffer.RoomIsTight | iotivity/extlibs/cjson/cJSON.h:136 | concrete case: each of the ten one-digit numbers prints with 64 and fails with 63 |
| JsonPrintRoom.ExactRoom | iotivity/extlibs/cjson/cJSON.c:1128-1142 | exactly how long the buffer has to be: printing into one of `len` bytes succeeds if and only if `len` is at least the text and two bytes more, and 65 bytes more than where each number begins |
| JsonPrintBuffer.FixedFitsGrowing | iotivity/extlibs/cjson/cJSON.c:317-394 | whatever prints into a fixed buffer prints with the growing printer too |
| JsonMinify.Minify | iotivity/extlibs/cjson/cJSON.c:2296-2358 | in place, on any text: the write position never passes the read position, and the result is the functional minification followed by a NUL and the untouched rest; a string or comment open at the NUL, which the code reads past, is an outcome of its own |
| JsonMinify.CopyString | iotivity/extlibs/cjson/cJSON.c:2335-2347 | a string literal is copied down byte for byte, its escapes untouched |
| JsonMinifySyntax.MinifiedIffCut | iotivity/extlibs/cjson/cJSON.c:2296-2358 | for every text: the result is `m` if and only if the text up to its NUL is blanks, line comments, block comments, string literals and other bytes, of which the literals and the other bytes make `m` |
| JsonMinify.MinifyPrinted | iotivity/extlibs/cjson/cJSON.c:2296-2358 | a printed value, anywhere in a text and in either format, is reduced to its unformatted print |
| JsonMinify.MinifyLinksFormats | iotivity/extlibs/cjson/cJSON.c:2296-2358 | minifying the formatted print of any tree gives exactly its unformatted print |
| JsonList.AddItemToArray | iotivity/extlibs/cjson/cJSON.c:1718-1743 | on the heap: append to the sequence of children, links kept well formed |
| JsonList.InsertItemInArray | iotivity/extlibs/cjson/cJSON.c:1858-1882 | insert in front of the index, and append when the index is past the end |
| JsonList.DetachItemFromArray | iotivity/extlibs/cjson/cJSON.c:1789-1828 | removes exactly the node at the index, or nothing for a bad index, and leaves it detached |
| JsonList.ReplaceItemInArray | iotivity/extlibs/cjson/cJSON.c:1884-1912 | updates exactly one position and leaves the replaced node detached, which is where cJSON_Delete gets it |
| JsonList.InsertedChain | iotivity/extlibs/cjson/cJSON.c:1858-1882 | re-linking around one new node makes the chain of the longer sequence, acyclic and with a head that has no prev |
| JsonList.RemovedChain | iotivity/extlibs/cjson/cJSON.c:1789-1818 | re-linking around one removed node makes the chain of the shorter sequence |
| JsonList.ReplacedChain | iotivity/extlibs/cjson/cJSON.c:1884-1912 | re-linking around an exchanged node makes the chain of the updated sequence |
| JsonList.DetachUndoesInsert | iotivity/extlibs/cjson/cJSON.c:1789-1882 | detach and insert at the same index are inverse |
| JsonList.StrCaseCmp | iotivity/extlibs/cjson/cJSON.c:73-98 | 0 exactly for keys of the same letters, each the same byte or the small and the capital form of one of the 26 letters; NULL equal to NULL only |
| JsonList.LowerSame | iotivity/extlibs/cjson/cJSON.c:73-98 | two bytes have the same lower case exactly when they are the same or the two forms of one letter |
| JsonList.GetObjectItem | iotivity/extlibs/cjson/cJSON.c:1662-1670 | the first child whose key matches |
| JsonList.FirstWithKeyUnique | iotivity/extlibs/cjson/cJSON.c:1662-1670 | at most one index is the first with a key, so "the item cJSON_GetObjectItem finds" means one item |
| JsonList.DetachItemFromObject | iotivity/extlibs/cjson/cJSON.c:1835-1850 | removes exactly the item cJSON_GetObjectItem finds |
| JsonOwnership.Delete | iotivity/extlibs/cjson/cJSON.c:175-196 | frees the blocks the list owns, each exactly once and in order, and nothing that is reached only through a reference; never looks into an item already freed |
| JsonOwnership.Duplicate | iotivity/extlibs/cjson/cJSON.c:2217-2294 | a reference-free new tree of equal value that shares no node and no owned block with the source |
| JsonOwnership.DuplicateThenDelete | iotivity/extlibs/cjson/cJSON.c:2217-2294 | duplicating and deleting the copy gives back exactly the memory taken; the source stays deletable |
| JsonOwnership.DuplicateDeleteSource | iotivity/extlibs/cjson/cJSON.c:2217-2294 | duplicating, deleting the source with its whole list, then deleting the copy: each block freed once, the source's and then the copy's, and no freed item looked into |
| JsonOwnership.SourceFirst | iotivity/extlibs/cjson/cJSON.c:2217-2294 | why that works: freeing the source first leaves the copy's blocks live |
| JsonOwnership.DeleteLeavesOthers | iotivity/extlibs/cjson/cJSON.c:175-196 | freeing one forest leaves every block of a disjoint one live |
| JsonOwnership.CreateReference | iotivity/extlibs/cjson/cJSON.c:1703-1715 | a reference shows the same children and value, has no key, and owns nothing but itself |
| JsonOwnership.ReferenceThenDelete | iotivity/extlibs/cjson/cJSON.c:175-196 | deleting a reference frees the reference alone |
| XmlExpand.InsertCoded | iotivity/extlibs/rapidxml/rapidxml.hpp:1545-1588 | writes the UTF-8 bytes of the code (or its low byte) at the write position, nothing for a code beyond 0x10FFFF |
| XmlExpand.NumericRoom | iotivity/extlibs/rapidxml/rapidxml.hpp:1683-1710 | the encoded code is never longer than the digits it was written with, for every digit string and 64-bit wrap-around |
| XmlExpand.TakeReference | iotivity/extlibs/rapidxml/rapidxml.hpp:1624-1726 | one reference, read from and written to the same buffer, gives what the functional reading gives |
| XmlExpand.TranslateLoop | iotivity/extlibs/rapidxml/rapidxml.hpp:1618-1750 | the translation loop: the write cursor stays at or behind the read cursor and the unread suffix is never altered |
| XmlExpand.ExpandInPlace | iotivity/extlibs/rapidxml/rapidxml.hpp:1603-1752 | the bytes up to the returned end are the recursive expansion of the original text, everything before the start and from the returned end on is untouched, and errors are at the same place |
| XmlEscape.CopyAndExpand | iotivity/extlibs/rapidxml/rapidxml_print.hpp:45-88 | the escaping loop of the printer |
| XmlEscape.PrintedQuotes | iotivity/extlibs/rapidxml/rapidxml_print.hpp:118-146 | an attribute value is put in double quotes unless it has one, and then in single quotes |
| XmlEscape.EscapedExpands | iotivity/extlibs/rapidxml/rapidxml.hpp:1603-1752 | expanding escaped text, up to whatever ends the region, gives the value back |
| XmlEscape.DataRoundTrip | iotivity/extlibs/rapidxml/rapidxml_print.hpp:45-88 | character data: any NUL-free value printed and read again is the same (with condensing on, if it has no whitespace) |
| XmlEscape.AttributeRoundTrip | iotivity/extlibs/rapidxml/rapidxml_print.hpp:118-146 | attribute values: whichever quote the printer chooses, the value is read back and the parser stands on the closing quote |
| XmlEscape.VerbatimExpands | iotivity/extlibs/rapidxml/rapidxml.hpp:1618-1750 | text whose ampersands begin no reference is copied as it stands, and with translation off any text is |
| XmlEscape.ReadCodeDenotes | iotivity/extlibs/rapidxml/rapidxml.hpp:1685-1710 | the digit loop takes all hexadecimal digits there are and computes their value modulo the 64-bit word |
| XmlEscape.DecimalReferences | iotivity/extlibs/rapidxml/rapidxml.hpp:1698-1715 | every decimal reference of XML 1.0 section 4.1 is read as the standard says; what is accepted beyond that is characterised exactly: no digits, letters among them, a number that wraps at 64 bits, or one that denotes no Char |
| XmlEscape.HexReferences | iotivity/extlibs/rapidxml/rapidxml.hpp:1685-1697 | the same for hexadecimal references: no digits, a number that wraps, or one that denotes no Char |
| XmlEscape.NulReference | iotivity/extlibs/rapidxml/rapidxml.hpp:1698-1715 | concrete case: "&#0;" is no XML reference and puts a NUL into the value |
| XmlEscape.SurrogateReference | iotivity/extlibs/rapidxml/rapidxml.hpp:1545-1588 | concrete case: "&#55296;" is no XML reference and puts three bytes into the value that are no UTF-8 |
| XmlEscape.LettersAreDecimalDigits | iotivity/extlibs/rapidxml/rapidxml.hpp:1698-1715 | concrete case: "&#A;" is no XML reference and is read as code 10 |
| XmlCondense.NormalizedIsCondensed | iotivity/extlibs/rapidxml/rapidxml.hpp:1728-1741 | with whitespace normalization the result has no tab or line break and no two spaces in a row, with entity translation on or off, as long as no reference brings whitespace in |
| XmlCondense.CondensedIff | iotivity/extlibs/rapidxml/rapidxml.hpp:1728-1741 | exactly when: the result is condensed if and only if every reference to whitespace is one to a space and has no whitespace on either side, written or referred to |
| XmlCondense.ReferencesBringBlanks | iotivity/extlibs/rapidxml/rapidxml.hpp:1728-1741 | concrete case: "&#32;&#32;" leaves two spaces in a row |
| XmlPool.Rounded | iotivity/extlibs/rapidxml/rapidxml.hpp:584-589 | aligning gives a multiple of the alignment less than one alignment ahead |
| XmlPool.AlignMask | iotivity/extlibs/rapidxml/rapidxml.hpp:584-589 | the mask arithmetic is the remainder the model writes, on 64-bit addresses |
| XmlPool.NewBlockFits | iotivity/extlibs/rapidxml/rapidxml.hpp:617-640 | the block size with its two alignments always has room for the header and the request |
| XmlPool.NewBlockValid | iotivity/extlibs/rapidxml/rapidxml.hpp:611-644 | starting a block keeps every header, chain link and range in place |
| XmlPool.NewRangeValid | iotivity/extlibs/rapidxml/rapidxml.hpp:611-644 | handing out a range keeps the state valid |
| XmlPool.AllocatedValid | iotivity/extlibs/rapidxml/rapidxml.hpp:611-644 | one allocation keeps the pool valid and adds one range of the size asked for |
| XmlPool.RangeInsideBlock | iotivity/extlibs/rapidxml/rapidxml.hpp:611-644 | every range is aligned and lies inside one live block behind its header |
| XmlPool.RangesApart | iotivity/extlibs/rapidxml/rapidxml.hpp:611-644 | any two ranges are disjoint |
| XmlPool.RangeSparesHeaders | iotivity/extlibs/rapidxml/rapidxml.hpp:611-644 | no range touches the header of any block |
| XmlPool.StoreKeepsValid | iotivity/extlibs/rapidxml/rapidxml.hpp:572-575 | whatever a caller writes into its range, the headers the pool reads back survive |
| XmlPool.RunsKeepValid | iotivity/extlibs/rapidxml/rapidxml.hpp:535-644 | the invariant holds after every sequence of allocations, writes and clears |
| XmlPool.PoolSafety | iotivity/extlibs/rapidxml/rapidxml.hpp:535-644 | after any such sequence every range is placed, and disjoint from every other range and every header |
| XmlPool.MemoryPool.AllocateAligned | iotivity/extlibs/rapidxml/rapidxml.hpp:611-644 | the bump-pointer code makes exactly that step |
| XmlPool.MemoryPool.Clear | iotivity/extlibs/rapidxml/rapidxml.hpp:535-547 | gives each dynamic block back exactly once, newest first, and returns to the empty static memory |
| XmlDom.InsertedChain | iotivity/extlibs/rapidxml/rapidxml.hpp:1104-1163 | linking one node in makes a list that follows the rules again, the last pointer included |
| XmlDom.RemovedChain | iotivity/extlibs/rapidxml/rapidxml.hpp:1168-1211 | unlinking one node does |
| XmlDom.EditKeepsValid | iotivity/extlibs/rapidxml/rapidxml.hpp:1357-1364 | an edit confined to one list leaves the rules valid throughout the document: every other list is as it was |
| XmlDom.Prepend | iotivity/extlibs/rapidxml/rapidxml.hpp:1104-1120 | prepend on child and attribute lists, on any document that follows the rules |
| XmlDom.Append | iotivity/extlibs/rapidxml/rapidxml.hpp:1125-1141 | append |
| XmlDom.Insert | iotivity/extlibs/rapidxml/rapidxml.hpp:1147-1163 | insert in front of a node, or at the end for a null position |
| XmlDom.RemoveFirst | iotivity/extlibs/rapidxml/rapidxml.hpp:1168-1178 | removes the first node and leaves it without a parent |
| XmlDom.RemoveLast | iotivity/extlibs/rapidxml/rapidxml.hpp:1183-1195 | removes the last node and leaves it without a parent |
| XmlDom.Remove | iotivity/extlibs/rapidxml/rapidxml.hpp:1199-1213 | removes exactly the given node |
| XmlDom.RemoveAll | iotivity/extlibs/rapidxml/rapidxml.hpp:1216-1221 | empties the list and orphans all its nodes |
| XmlDom.LinkLast | iotivity/extlibs/rapidxml/rapidxml.hpp:1245-1261 | the pointer work of append, which never reads a pointer the rules leave undefined |
| XmlDom.UnlinkFirst | iotivity/extlibs/rapidxml/rapidxml.hpp:1288-1300 | the pointer work of removing the first attribute |
| XmlDom.UnlinkLast | iotivity/extlibs/rapidxml/rapidxml.hpp:1305-1317 | the pointer work of removing the last attribute |
| XmlDom.UnlinkAll | iotivity/extlibs/rapidxml/rapidxml.hpp:1337-1343 | the loop follows sibling pointers of nodes that have just lost their parent |
| XmlClone.CloneNode | iotivity/extlibs/rapidxml/rapidxml.hpp:506-530 | a tree of new nodes only, whose lists follow the rules; kinds, node names and node values equal the source's, which is unchanged |
| XmlClone.CloneInto | iotivity/extlibs/rapidxml/rapidxml.hpp:506-514 | the same into a given node, whose own children and attributes are let go first |
| XmlClone.CloneAttributes | iotivity/extlibs/rapidxml/rapidxml.hpp:525-528 | attributes in order, an empty name or value being measured anew |
| XmlClone.MeasureIs | iotivity/extlibs/rapidxml/rapidxml.hpp:456-478 | measured anew, a name or value reaches up to the next NUL |
| XmlClone.ClonedSame | iotivity/extlibs/rapidxml/rapidxml.hpp:456-478 | the clone equals its source if and only if every empty attribute name or value is followed by a NUL |
| XmlClone.EmptyValueGrows | iotivity/extlibs/rapidxml/rapidxml.hpp:456-478 | concrete case: "<a x=''/>" parses to an element with an attribute of empty value, and in the clone, the text not being terminated, that value is three bytes long |
| XmlTree.Attribute | iotivity/extlibs/rapidxml/rapidxml.hpp:2276-2340 | one attribute: where its name and value lie, and that each ends before the next byte used |
| XmlTree.ParseNode | iotivity/extlibs/rapidxml/rapidxml.hpp:2116-2200 | every node read moves forward inside the text, errors point into it |
| XmlTree.NodeWithin | iotivity/extlibs/rapidxml/rapidxml.hpp:2116-2200 | all names and values of a node lie between its '<' and its end |
| XmlTree.AttributesWithin | iotivity/extlibs/rapidxml/rapidxml.hpp:2276-2340 | the same for attributes |
| XmlTree.ContentsWithin | iotivity/extlibs/rapidxml/rapidxml.hpp:2206-2270 | the same for the contents of an element |
| XmlParse.SkipPlain | iotivity/extlibs/rapidxml/rapidxml.hpp:1603-1752 | with translation and normalization off the expanding skip changes nothing and stops where a plain skip does, trimming or not |
| XmlParse.AttributeAt | iotivity/extlibs/rapidxml/rapidxml.hpp:2276-2340 | one attribute in place: both terminators are written behind bytes already used |
| XmlParse.AttributesAt | iotivity/extlibs/rapidxml/rapidxml.hpp:2276-2340 | the attribute loop |
| XmlParse.DataAt | iotivity/extlibs/rapidxml/rapidxml.hpp:1975-2029 | data in place: the terminator may go over the unread '<', and the character it replaced is handed back |
| XmlParse.ClosedAt | iotivity/extlibs/rapidxml/rapidxml.hpp:1807-1845 | comments and CDATA sections, terminated over the first byte of their closing |
| XmlParse.CloseTagAt | iotivity/extlibs/rapidxml/rapidxml.hpp:2225-2247 | the closing tag is compared with a name that is still intact |
| XmlParse.ContentsAt | iotivity/extlibs/rapidxml/rapidxml.hpp:2206-2270 | the contents loop with its jump past the whitespace skip: same tree, all names and values sealed, nothing unread altered |
| XmlParse.ElementAt | iotivity/extlibs/rapidxml/rapidxml.hpp:2072-2112 | an element, its name terminated last |
| XmlParse.Parse | iotivity/extlibs/rapidxml/rapidxml.hpp:1415-1446 | parsing in place, references and whitespace left as they are, computes the tree of the original text in either mode; every name and value is intact and, with terminators, NUL-terminated; without them not a byte changes |
| XmlParse.ParseBoth | iotivity/extlibs/rapidxml/rapidxml.hpp:1415-1446 | destructive and non-destructive parsing succeed or fail together, with the same tree or the same error, and every name and value reads the same in both buffers |
| XmlSyntax.FieldRead | iotivity/extlibs/rapidxml/rapidxml.hpp:2276-2340 | an attribute with any blanks around its equals sign and behind it, in either quotes, is read with its name and value |
| XmlReads.PartsRead | iotivity/extlibs/rapidxml/rapidxml.hpp:2206-2270 | the contents of an element, texts and markup in any order, and its closing tag, under every choice of flags: which children are made, in order, which text is trimmed how, and the element's own value |
| XmlReads.MarkupRead | iotivity/extlibs/rapidxml/rapidxml.hpp:2116-2200 | every element, comment, section, instruction, document type and other markup is read to exactly its end, as the node it makes, if it makes one |
| XmlReads.DocumentRead | iotivity/extlibs/rapidxml/rapidxml.hpp:1415-1446 | every document of markup, a byte order mark in front or not, is parsed to its end under every choice of flags |
| XmlGrammar.MarkupHas | iotivity/extlibs/rapidxml/rapidxml.hpp:2116-2200 | the other direction: whatever is read as a node is markup of the grammar |
| XmlGrammar.AcceptedIff | iotivity/extlibs/rapidxml/rapidxml.hpp:1415-1446 | for every C string and every choice of flags: the parser accepts it if and only if it is a document of markup, and its nodes then show exactly what the document stands for |
| XmlFlags.ParseInPlace | iotivity/extlibs/rapidxml/rapidxml.hpp:1415-1446 | the same through the parser that works in place, in either mode: the overwritten buffer shows what the document stands for |
| XmlFlags.RoundTripFiltered | iotivity/extlibs/rapidxml/rapidxml_print.hpp:324-382 | the round trip under every choice of flags: remarks are gone unless comments are asked for, data and sections are if they are not, and data is trimmed if that is asked for |
| XmlRoundTrip.AttributePrinted | iotivity/extlibs/rapidxml/rapidxml.hpp:2276-2340 | a printed attribute is read back with its name and value exactly where they were printed, whichever quote was chosen |
| XmlRoundTrip.DataPrinted | iotivity/extlibs/rapidxml/rapidxml.hpp:2206-2270 | printed data is found behind the whitespace it may begin with, and ends at the next tag |
| XmlRoundTrip.ClosedPrinted | iotivity/extlibs/rapidxml/rapidxml.hpp:1807-1845 | a section or comment that does not contain its closing is read back exactly |
| XmlRoundTrip.NodePrinted | iotivity/extlibs/rapidxml/rapidxml_print.hpp:324-382 | a printed node, at any depth, is parsed to exactly that node and no further |
| XmlRoundTrip.ContentsPrinted | iotivity/extlibs/rapidxml/rapidxml_print.hpp:186-238 | printed contents and the closing tag, with or without validation of its name |
| XmlRoundTrip.DocumentPrinted | iotivity/extlibs/rapidxml/rapidxml.hpp:1415-1446 | a printed document is consumed to its end |
| XmlRoundTrip.AllNulFree | iotivity/extlibs/rapidxml/rapidxml_print.hpp:45-88 | printing adds no NUL, so what is printed is a C string |
| XmlRoundTrip.NodeShown | iotivity/extlibs/rapidxml/rapidxml_print.hpp:324-382 | the spans of the parsed node show the names and (escaped) values that were printed |
| XmlRoundTrip.RoundTrip | iotivity/extlibs/rapidxml/rapidxml_print.hpp:324-382 | for every document of elements, attributes, data, CDATA sections and comments: parsing the printed text succeeds, consumes it all, and gives the same nodes in the same order, their spans showing the names and the escaped values as written |
| XmlRoundTrip.NodesSealed | iotivity/extlibs/rapidxml/rapidxml.hpp:1415-1446 | nodes whose spans are intact show in the overwritten buffer what they showed in the original text |
| XmlRecover.NodeRead | iotivity/extlibs/rapidxml/rapidxml.hpp:1603-1752 | a printed node, its data and attribute values expanded where they stand, is the node that was printed |
| XmlRecover.Recovered | iotivity/extlibs/rapidxml/rapidxml_print.hpp:324-382 | the round trip closed: expanding every data and attribute span of the parsed tree in the printed text, as the parser does when it translates references, gives the very documents that were printed |
| XmlRecover.AllUnescaped | iotivity/extlibs/rapidxml/rapidxml_print.hpp:45-88 | as documents: expanding every value of the escaped document gives the document |
| XmlRecover.ReadBack | iotivity/extlibs/rapidxml/rapidxml.hpp:1415-1446 | the round trip through the in-place parser, in either mode: the overwritten buffer shows the escaped document, and expanding its values gives the document that was printed |
| WorkQueue.InvKept | iotivity/bridging/include/WorkQueue.h:65-107 | every step of every thread keeps the invariant: order, mutual exclusion, no lost wakeup, tested condition |
| WorkQueue.QueueSafety | iotivity/bridging/include/WorkQueue.h:65-107 | over every interleaving, items put are the items fetched, in order, then the items still queued; with the mutex free a sleeping consumer means an empty queue and no shutdown |
| WorkQueue.AnsweredInOrder | iotivity/bridging/include/WorkQueue.h:65-97 | the same read off the threads alone: over every interleaving the items that calls of put pushed are the items that calls of get answered with, in that order and once each, then those still queued |
| WorkQueue.NoItemIffShut | iotivity/bridging/include/WorkQueue.h:80-97 | a get answers without an item exactly when the queue is shut down |
| WorkQueue.AnswerReturned | iotivity/bridging/include/WorkQueue.h:80-97 | what get returns is the answer it was given |
| WorkQueue.HolderGoesOn | iotivity/bridging/include/WorkQueue.h:65-107 | one thread at most is in the critical section and it can always go on; in particular front() is never taken of an empty queue |
| WorkQueue.NothingFetchedAfterShutdown | iotivity/bridging/include/WorkQueue.h:80-107 | no get succeeds after the shutdown |
| WorkerProtocol.InvKept | iotivity/bridging/include/ConcurrentIotivityUtils.h:70-101 | every step keeps the protocol's invariant |
| WorkerProtocol.ApiMutualExclusion | iotivity/bridging/include/ConcurrentIotivityUtils.h:70-101 | process() and OCProcess() never run at the same time, handlers that call put included |
| WorkerProtocol.CanStepIffStep | iotivity/bridging/include/ConcurrentIotivityUtils.h:70-101 | what "can go on" means below: in a state that fits the thread functions it holds exactly when there is a step |
| WorkerProtocol.NoLockCycle | iotivity/bridging/common/ConcurrentIotivityUtils.cpp:69-90 | a thread that cannot go on waits for a holder that can, or that itself waits for one that can; the holder of the queue mutex never waits for the API mutex |
| WorkerProtocol.SomeoneCanGo | iotivity/bridging/common/ConcurrentIotivityUtils.cpp:46-53 | after the stop there is always a thread that can go on until both joins have returned |
| WorkerProtocol.MeasureShrinks | iotivity/bridging/common/ConcurrentIotivityUtils.cpp:46-53 | once the stop has signalled, every step of a worker or of the stopping thread makes a measure smaller, and no other thread's step makes it larger |
| WorkerProtocol.FinallyQuiet | iotivity/bridging/common/ConcurrentIotivityUtils.cpp:46-53 | so those threads make only finitely many further steps under any schedule |
| WorkerProtocol.BothJoinsReturn | iotivity/bridging/common/ConcurrentIotivityUtils.cpp:46-53 | under every fair schedule, however many others keep putting work, both threads exit and both joins return |
| WorkerProtocol.HolderLeaves | iotivity/bridging/include/WorkQueue.h:65-107 | under every fair schedule whoever holds the queue's mutex lets it go, in any state the protocol reaches |
| WorkerProtocol.MainSignals | iotivity/bridging/common/ConcurrentIotivityUtils.cpp:35-53 | under every fair schedule the stopping thread gets through shutdown() |
| WorkerProtocol.StopWorks | iotivity/bridging/common/ConcurrentIotivityUtils.cpp:35-53 | for every fair run from the start of the threads, with no further assumption: the stop happens, both threads exit and both joins return |
| WorkerItems.PutIsProcessed | iotivity/bridging/include/ConcurrentIotivityUtils.h:70-101 | over every run, with handlers that put from inside process(): the items put are the items process() has been called for, in order and once each, then the one the worker has in hand, then those queued |
| WorkerItems.FetchedIsProcessed | iotivity/bridging/include/ConcurrentIotivityUtils.h:70-87 | process() is called for each item fetched, in order |
| WorkerItems.ExitsOnlyAfterStop | iotivity/bridging/include/ConcurrentIotivityUtils.h:70-101 | the worker exits only after the queue is shut down, and the network thread only after its flag is set |
| PipeProtocol.LoadStored | iotivity/bridging/common/pipeHandler.cpp:48-58 | a field read back has the number that was written |
| PipeProtocol.WriteMessage | iotivity/bridging/common/pipeHandler.cpp:41-75 | a message is its size, its type and its payload, one after the other |
| PipeProtocol.ReadMessage | iotivity/bridging/common/pipeHandler.cpp:78-131 | the read with its branches: MPM_NOMSG counts as nothing read, a payload only when there is a size |
| PipeProtocol.ReadsFramed | iotivity/bridging/common/pipeHandler.cpp:78-131 | a message at the front of a stream is read exactly, with its type, size and payload, and the rest is left |
| PipeProtocol.Child.RequestHandler | iotivity/bridging/common/messageHandler.cpp:58-83 | exactly the four known types are dispatched |
| PipeProtocol.Child.ProcessMessage | iotivity/bridging/common/pluginServer.cpp:119-170 | one turn: shut down on MPM_STOP or nothing read, dispatch otherwise |
| PipeProtocol.Child.Serve | iotivity/bridging/common/pluginServer.cpp:339-353 | the loop, on any stream |
| PipeProtocol.ServedFramed | iotivity/bridging/common/pluginServer.cpp:119-170 | for every finite sequence of messages the child makes exactly the calls for those before the first MPM_STOP or MPM_NOMSG, in order and once each, and leaves what is behind a stop unread |
| PipeProtocol.ServedCalls | iotivity/bridging/common/messageHandler.cpp:58-83 | by the numbers of the protocol: of the messages in front of the first of type 0 or 6, those of type 1, 2, 4 and 5 each make one call, of the plugin's scan, add, remove and reconnect, in order, and there are no others |
| PipeProtocol.OnlyStopEnds | iotivity/bridging/common/pluginServer.cpp:119-170 | without MPM_NOMSG only a stop or the end of the file ends the loop |
| PipeProtocol.Converse | iotivity/bridging/common/pipeHandler.cpp:41-131 | both ends of the pipe together |
| LineInput.Parser.FinishElem | iotivity/examples/OICMiddle/LineInput.cpp:366-372 | terminates the scratch buffer and copies out what is in it |
| LineInput.Parser.Turn | iotivity/examples/OICMiddle/LineInput.cpp:402-452 | one turn of the switch, on the shared scratch buffer |
| LineInput.Parser.ParseLine | iotivity/examples/OICMiddle/LineInput.cpp:385-456 | the whole loop refines the functional tokenizer on every line, the exception and a write behind the buffer included |
| LineInput.ScanIff | iotivity/examples/OICMiddle/LineInput.cpp:385-456 | from any state of the tokenizer: which elements are accepted, in both directions |
| LineInput.AcceptedIffJoined | iotivity/examples/OICMiddle/LineInput.cpp:385-456 | LR_OK with a list of elements if and only if the line (line breaks apart) is those elements joined by blanks with none behind, each well formed and under 1000 characters |
| LineInput.LineRoundTrip | iotivity/examples/OICMiddle/LineInput.cpp:385-456 | every non-empty list of well-formed elements joined by runs of blanks is read back exactly |
| LineInput.OverrunIff | iotivity/examples/OICMiddle/LineInput.cpp:366-456 | exactly when a line writes behind the scratch buffer: behind blanks and complete elements it has a key, a separator and a value of together 1000 characters, the value beginning at the 999th at the latest, which is bare; or closes its quote with the 1000th and ends there or goes on with a blank; or has its quote still open and goes on |
| LineInput.SpillIff | iotivity/examples/OICMiddle/LineInput.cpp:385-456 | the same from any state of the tokenizer, in both directions |
| LineInput.OverrunningLine | iotivity/examples/OICMiddle/LineInput.cpp:424-436 | concrete case: "a=" and 998 times "a" |
| LineInput.ShortLines | iotivity/examples/OICMiddle/LineInput.cpp:366-383 | a line shorter than the scratch buffer only ever gives LR_OK or LR_Syntax, so it neither throws nor overruns |

## Left out

- Floating point: numbers are decimals with an integer mantissa; only integers are printed, and rounding in `strtod` and the saturation of `valueint` are not modelled.
- cJSON_Raw and cJSON_Invalid items, a NULL `valuestring`, custom hooks and failing allocations.
- The read one past the end in the first pass of `parse_string`: such a byte is taken for no quote.
- JsonMinify.Minify: with a string or comment open at the NUL the code reads on behind it; the outcome says so, and what it then does is not modelled.
- JsonString.ParseString: a literal with \u0000 gives a text with a NUL in it; in C the string, or the key, ends at that NUL for everybody who reads it later.
- JsonList.ReplaceItemInArray: stops where `cJSON_Delete` is called on the replaced node; that call is `JsonOwnership.Delete`.
- The overflow branches of `ensure` for sizes near SIZE_MAX beyond the INT_MAX test.
- cJSON_AddItemToObject, the create functions and the accessors: they would only add easy members.
- The lookup tables of RapidXML as data: the predicates their comments give are used.
- RapidXML declarations, processing instructions and document types as nodes: they are skipped, as they are when their flags are off.
- XmlParse.Parse: entity translation and whitespace normalization are off while parsing; both are treated in XmlExpand, and XmlRecover applies the translation to the spans of the parsed tree.
- XmlParse.Parse: the tree is a value made of positions and sizes; that nodes are appended to lists on the heap is XmlDom's part, and that they come from the pool is XmlPool's.
- XmlRoundTrip.RoundTrip: printing is without indenting, because indenting adds whitespace to data that stands beside other nodes; data that is all whitespace, and two pieces of data in a row, are not read back as they were and are excluded.
- XmlDom.Append: child and attribute lists are one member with a side, because the two sets of functions differ in field names and the order of independent assignments only.
- XmlExpand: `text` and `dest` pointers are offsets into one array.
- The `assert` on a child's type when cloning, and the document type check in it.
- WorkerProtocol: `m_shutDownOCProcessThread` is read without a lock in the code; here its reads and writes are single steps.
- WorkerProtocol.BothJoinsReturn: assumes strong fairness (a thread that can step again and again does) and that every work item returns after finitely many calls of `put`.
- PipeProtocol: `select`, timeouts, failing reads and writes, and a failing allocation; each read and write moves its whole field or what is left, and both ends store numbers alike.
- The plugin functions, CBOR metadata, OCF calls and everything else of the bridging code.
- LineInput.Parser.ParseLine: starts with an empty list of elements and drops the partial list on LR_Syntax, where the code appends to its caller's list and leaves there what it has appended.
- LineInput.Parser.ParseLine: what happens after a write behind the scratch buffer is not modelled; the outcome says that one is made.
- The mini plugin manager, curl, SQLite, Redis, zlib and hardware modules, and the model directory.

# A verified model of libedi and of the engines of its XML parser

libedi reads and writes EDI interchanges (UN/EDIFACT, TRADACOMS, X12) and loads its schemas with
the Expat parser that it ships; a small iconv converts character sets on Windows. This project
models the stateful parts of the three and proves what they are for.

* **EDI** (`Edi*.dfy`). The printer and the parser of interchanges as functions on text, the law
  that connects them for every interchange (`EdiRoundTrip`), what the text looks like (`EdiPrint`), detection of the separators and the
  self-describing round trip with an UNA header (`EdiDetect`), the builder in a bounded buffer
  (`EdiBuild`), and the parser in place with its string pools (`EdiPool`, `EdiParse`).
* **Expat.** The double-hashed name table (`Probing`, `HashTable`) and the version-stamped table
  of attribute names (`NsAtts`); element declarations from tokens to the packed tree
  (`Content*.dfy`); the content tokenizer, as an automaton and as its scanners, the grammar
  of markup that it accepts exactly (`XmlGrammar`, `XmlReads`, `XmlTokens`, `XmlShape`), the tokenizer for
  CDATA sections, and how both behave on content that arrives in pieces (`XmlTok`, `XmlScan`, `XmlCdata`,
  `XmlChunks`); characters (`XmlChar`, `XmlRef`);
  entity expansion and normalization of attribute values, and the values that may be copied
  (`XmlExpand`, `XmlExpander`, `XmlNormalize`, `XmlGetAtts`, `XmlTagSpans`, `XmlTagValues`, `XmlStored`); namespace bindings and the
  context string (`XmlNamespace`, `XmlContext`); the string arena and the conversion of what goes into it
  (`XmlPool`, `XmlConvert`).
* **iconv** (`IconvCodec`, `Iconv`). UTF-16 and UTF-32 with byte order marks, and the loop that
  can be stopped and resumed.

Conventions. Objects that the C code updates in place are classes; where a method computes
something that the theorems are about, a function says what, and the method is proved equal to
it. Hash functions, class tables and character tests of encodings are arbitrary, so the theorems
hold for every salt and, as far as the tokenizer goes, for every encoding with one-byte units; attribute
values are expanded and normalized in UTF-8, and what is asked of the class table there is proved of
UTF-8 in `XmlRef`. Texts are sequences of all bytes or characters: where C ends them with a NUL they stand
for the texts without one, and the theorems about EDI values hold of values with a NUL as well. Memory
allocation succeeds. Plain `char` is signed, so that bytes from 128 on never equal a separator.

Where the code does not do what one might expect, the code is modelled as it is, a failing input is
given, and the exact condition under which it does is proved:

* different attributes can be reported as duplicates, by a collision of hashes (`NsAtts.FalseDuplicate`) and,
  without a separator, whatever the hash (`NsAtts.FalseWithoutSeparator`); the report is right iff there is a
  duplicate or no two different attributes look alike (`NsAtts.ErrorIsRight`), and with a separator that is in
  no local part only collisions are left (`NsAtts.LookalikesCollide`);
* an interchange that the parser made can change when it is printed and parsed again
  (`EdiDetect.ParsedDoesNotComeBack`); it comes back iff it is in normal form (`EdiRoundTrip.RoundTrip`);
* data can have been reported that is an error when the content arrives at once
  (`XmlChunks.DataBeforeError`); this is so iff a piece ends with data of which the rest makes an error
  (`XmlChunks.PiecesDoNotMatter`, `XmlChunks.AnyPiecesDoNotMatter`);
* a first byte in UTF-16 that nothing can complete is reported as incomplete, not as illegal
  (`IconvCodec.HopelessByte`); which of the two is reported is told exactly by `IconvCodec.WhyNotRead`;
* the conversion to UTF-8 can tear a character (`XmlConvert.EuroIsTorn`); it does not iff everything fits,
  or nothing, or the last byte that fits is a character (`XmlConvert.CopiesWholeChars`).

To verify: `dafny verify dfyconfig.toml`.

## Model

| member | source | states |
|---|---|---|
| `Probing.ProbeStep` | expat/lib/xmlparse.c:117-128 | the probe step is odd and smaller than the table, for every hash and every table size from 8 up |
| `Probing.SlotsAreDistinct` | expat/lib/xmlparse.c:5994-6000 | an odd step visits every slot of a table of 2^n slots once before it repeats one (the step is coprime to the size) |
| `Probing.ProbingStops` | expat/lib/xmlparse.c:5994-6000 | with any slot free, probing from any start reaches a free slot after at most as many probes as slots are taken |
| `Probing.WalkIsBounded` | expat/lib/xmlparse.c:5994-6000 | a walk over taken slots only is no longer than the number of taken slots |
| `HashTable.WalkDecides` | expat/lib/xmlparse.c:5990-6001 | a walk that ends at a free slot without meeting the key proves the key absent from the whole table |
| `HashTable.FillSlot` | expat/lib/xmlparse.c:5990-6046 | filling the free slot at the end of the walk adds exactly that key to the finite map the table represents |
| `HashTable.Probe` | expat/lib/xmlparse.c:5990-6001 | probing ends at the entry of the name if and only if the map has the name, and else at the free slot where it belongs |
| `HashTable.Rehash` | expat/lib/xmlparse.c:6005-6037 | resizing to twice the size keeps the represented map, for every hash function |
| `HashTable.Table.Lookup` | expat/lib/xmlparse.c:5969-6046 | returns the stored entry iff the name is in the map; for an absent name it returns nothing or, with creation, adds a new entry and changes the map by nothing else, growing the table where it has to; at least half of the slots stay free |
| `HashTable.Table.Store` | expat/lib/xmlparse.c:6039-6045 | puts a new entry for an absent name into the free slot that was found for it, and the map changes by nothing else |
| `NsAtts.Table.BeginTag` | expat/lib/xmlparse.c:2876-2903 | whatever tags came before, no slot carries the stamp of the new tag (wrap-around of the version and growth included), and the table is more than twice as large as the number of prefixed attributes |
| `NsAtts.Table.Walk` | expat/lib/xmlparse.c:2940-2952 | probing ends, and finds an equal stored name exactly if an attribute met on the way clashes |
| `NsAtts.Table.Add` | expat/lib/xmlparse.c:2915-2983 | an attribute is reported as a duplicate iff it clashes with one before it; otherwise the table holds it as well |
| `NsAtts.Table.CheckTag` | expat/lib/xmlparse.c:2876-2983 | a start tag gets the duplicate error iff two of its prefixed attributes clash: equal hash and the later name a prefix of the stored earlier one |
| `NsAtts.ErrorIsRight` | expat/lib/xmlparse.c:2940-2952 | equal namespace and local part always give the error; and the error is given exactly for duplicates iff there is one in the tag or no two attributes that differ in namespace or local part look alike: equal hashes and the later expanded name a prefix of what is stored for the earlier |
| `NsAtts.SeparatorTells` | expat/lib/xmlparse.c:2915-2932 | a separator that is in no local part keeps the expanded names of different attributes different |
| `NsAtts.LookalikesCollide` | expat/lib/xmlparse.c:2915-2952 | with a separator that is in no local part, attributes look alike only by a collision: different expanded names with equal hashes, the later a proper prefix of what is stored for the earlier |
| `NsAtts.FalseDuplicate` | expat/lib/xmlparse.c:2945-2948 | a concrete failing tag: with CHAR_HASH in 32 bits and salt 1, the local parts aszuaYF and a in the namespace u, with a vertical bar as separator, have the same hash and get the duplicate error |
| `NsAtts.FalseWithoutSeparator` | expat/lib/xmlparse.c:3117-3118 | a second failing tag: without a separator, bc in the namespace u and c in the namespace ub get the duplicate error whatever the hash is |
| `NsAtts.FreeSlotMeansNoClash` | expat/lib/xmlparse.c:2940-2952 | reaching a free slot proves that no attribute of this tag clashes |
| `NsAtts.SameName` | expat/lib/xmlparse.c:2945-2948 | the character loop decides whether the new name is a prefix of the stored one |
| `ContentModel.StepStaysLevelled` | expat/lib/xmlrole.c:985-1313 | one token keeps level, connector array and group stack in step; a closing role never comes at level 0 |
| `ContentGrammar.AcceptedIffGrammar` | expat/lib/xmlrole.c:985-1313 | an element declaration is accepted iff, without white space, it is derivable from productions [45]-[51] of XML 1.0 (sections 3.2, 3.2.1, 3.2.2), at every nesting depth |
| `ContentGrammar.GrammarIsAccepted` | expat/lib/xmlrole.c:985-1313 | every declaration of the grammar is accepted |
| `ContentGrammar.AcceptedIsGrammar` | expat/lib/xmlrole.c:985-1313 | every accepted token stream is a declaration of the grammar |
| `ContentGrammar.SpaceIsIgnored` | expat/lib/xmlrole.c:985-1313 | white space between tokens changes nothing |
| `ContentGrammar.LevelIsDepth` | expat/lib/xmlrole.c:1002-1212 | the nesting counter equals opening minus closing parentheses after every prefix of an accepted stream |
| `ContentGrammar.RunCp` | expat/lib/xmlparse.c:4559-4668 | reading the printed form of any content particle adds exactly its cells to the scaffold, in preorder, linked as its tree, with the characters of its names counted |
| `ContentGrammar.RunKids` | expat/lib/xmlparse.c:4422-4476 | the particles of a group, with one kind of separator, become its children in order; the connector of the group records the separator |
| `ContentGrammar.TreeAt` | expat/lib/xmlparse.c:4593-4668 | when the parenthesis that ends an accepted model is read, the scaffold shows the tree that the declaration was printed from |
| `ContentBuild.BuildNode` | expat/lib/xmlparse.c:6321-6357 | writes the cell of a scaffold part and, recursively, its subtree into the packed array: exactly Size cells and Chars characters, from the two cursors on, and nothing else; it terminates |
| `ContentBuild.BuildKids` | expat/lib/xmlparse.c:6343-6355 | the children of a part become consecutive cells in order, each with its subtree |
| `ContentBuild.PackedIsSeen` | expat/lib/xmlparse.c:6321-6378 | from the exact layout to what an application sees that follows the child pointers: types, quantifiers, names and children are the tree |
| `ContentBuild.PackedFrame` | expat/lib/xmlparse.c:6321-6357 | the packed form of a tree lives in its own cells and characters only, so no two subtrees overlap |
| `ContentParser.DeclParser.NextScaffoldPart` | expat/lib/xmlparse.c:6273-6319 | a new cell linked to its parent and previous sibling; everything else in the scaffold is unchanged, also when the arrays are doubled |
| `ContentParser.DeclParser.OpenGroup` | expat/lib/xmlparse.c:4422-4454 | an opening parenthesis adds a group to scaffold, stack and connectors |
| `ContentParser.DeclParser.CloseGroup` | expat/lib/xmlparse.c:4634-4664 | a closing parenthesis gives the group its quantifier and leaves it; at the outermost one the model is built |
| `ContentParser.DeclParser.BuildModel` | expat/lib/xmlparse.c:6359-6378 | allocates scaffCount cells and contentStringLen characters, and fills exactly these |
| `ContentParser.DeclParser.Token` | expat/lib/xmlparse.c:4422-4668 | one token does to fields and arrays what the automaton does to the abstract state |
| `ContentParser.DeclParser.ReadDeclaration` | expat/lib/xmlparse.c:4422-4668 | after any earlier declarations: a declaration is accepted iff it is in the grammar, and then the application gets the packed tree it was written as |
| `EdiRoundTrip.ScanEscaped` | libedi/parse.c:181-208 | the scanner stops at exactly the first unescaped separator after a printed value |
| `EdiRoundTrip.UnescapeEscape` | libedi/parse.c:307-342 | memcpyescape undoes addescaped, for every value |
| `EdiRoundTrip.ParseComposite` | libedi/parse.c:212-267 | printed composite values are collected into one element, an empty last one at the end of a segment being dropped |
| `EdiRoundTrip.ParsePrinted` | libedi/parse.c:162-267 | printed elements are read back, except for an empty value at the end of the segment |
| `EdiRoundTrip.ParseSegment` | libedi/parse.c:135-273 | a printed segment is read back in normal form, behind line ends that its first value begins with |
| `EdiRoundTrip.ParsePrint` | libedi/parse.c:132-274 | for every interchange and all admissible separators, parsing what was printed gives the normal form of the interchange and no error |
| `EdiRoundTrip.NormalIffFixed` | libedi/parse.c:136-267 | exactly the segments in normal form are their own normal form: composites of at least two values, a last value that is not empty, no CR or LF in front |
| `EdiRoundTrip.ParsedAreWritable` | libedi/parse.c:181-208 | without an escape character the parser never returns a value with a separator in it |
| `EdiRoundTrip.RoundTrip` | libedi/build.c:338-442 | parsing the printed text returns the interchange iff every segment is in normal form and, without an escape character, no value holds a separator that would end it |
| `EdiDetect.ParsedDoesNotComeBack` | libedi/parse.c:212-267 | an interchange that the parser made and that does not come back: A, a sub-element separator and the end of the segment give a composite of one value, printed as a simple element |
| `EdiRoundTrip.OffsetsOfNormal` | libedi/parse.c:152-158 | each segment of an interchange in normal form gets the offset at which it was printed |
| `EdiDetect.DetectSeparators` | libedi/detect.c:116-183 | the first detector row of the first registered preset that applies decides separators and bytes to skip |
| `EdiDetect.UnaFormatExpands` | libedi/edifact.h:46-64 | the UNA trailer format prints the five separators in the order of ISO 9735, Annex B |
| `EdiDetect.DetectUna` | libedi/detect.c:116-183 | a message that begins with a UNA header gives back its separators, with the tag separator taken from the element separator, and nine bytes to skip |
| `EdiDetect.DetectUnb` | libedi/edifact.h:46-64 | a message that begins with UNB has the separators of UN/EDIFACT, by their characters |
| `EdiDetect.DetectStx` | libedi/tradacoms.h:34-64 | a message that begins with STX has the separators of TRADACOMS, by their characters |
| `EdiDetect.DetectIsa` | libedi/x12.h:38-57 | a message that begins with ISA has its separators at the bytes 3, 6, 104 and 105 and no escape character |
| `EdiDetect.SelfDescribing` | libedi/build.c:251-443 | with the UNA header the text is UNA, the six characters of ISO 9735 and the interchange; detection and parsing recover the separators and the normal form, and the interchange itself iff it is in normal form, when the first element is simple and not UNA itself |
| `EdiDetect.SelfDescribingUnb` | libedi/detect.c:116-183 | an interchange in normal form that begins with UNB, printed with the separators of UN/EDIFACT and no header, comes back through detection and parsing |
| `EdiDetect.SelfDescribingStx` | libedi/detect.c:116-183 | the same with STX and the separators of TRADACOMS |
| `EdiDetect.OwnUnaSegment` | libedi/build.c:345-437 | an interchange that begins with a segment UNA of its own: alone in its segment it becomes the header, and all other segments come back in normal form; with further elements the tag separator is detected as the separator inside composites, which it is not |
| `EdiDetect.WithoutFirstElement` | libedi/build.c:340-437 | without a first element no header is printed and nothing is detected |
| `EdiPrint.EscapedAt` | libedi/build.c:218-249 | every byte of a value stands where the escape characters before it have moved it, with one in front of exactly the bytes that are a separator or the escape character; the length is that of the value and of these |
| `EdiPrint.PlainAsItStands` | libedi/build.c:226-237 | a value is printed as it stands iff none of its bytes is one of the five or there is no escape character |
| `EdiPrint.SegmentIsJoined` | libedi/build.c:340-437 | where the separators stand: sub-element separators in composites, the tag separator behind the first element, element separators between the others, the segment separator at the end |
| `EdiPrint.TextLength` | libedi/build.c:338-442 | the length of a text: its values, one escape character for each byte of the five, one separator between each two values and one for each segment |
| `EdiBuild.AddEscaped` | libedi/build.c:218-249 | puts the escaped value into the buffer as far as it fits, with a terminator behind it, and changes nothing further |
| `EdiBuild.AddHdrTrailer` | libedi/build.c:251-311 | puts the expanded format into the buffer as far as it fits |
| `EdiBuild.AddSegment` | libedi/build.c:340-437 | puts one segment into the buffer as far as it fits, with the header or its trailer where they belong |
| `EdiBuild.Build` | libedi/build.c:313-443 | for every buffer size: returns the smaller of that size and the full length, which without a header is that of values, escape characters and separators; writes that prefix of the unlimited text and a terminator, and nothing behind it |
| `EdiPool.CopyUnescaped` | libedi/parse.c:307-342 | copies the value without its escape characters, and nothing else changes |
| `EdiPool.Pool.Get` | libedi/stringpool.c:40-73 | the last pool if it has strictly more room than asked for, else a new one of at least 512 bytes |
| `EdiPool.Pool.Alloc` | libedi/stringpool.c:75-87 | a buffer apart from all buffers handed out before |
| `EdiPool.Pool.Store` | libedi/parse.c:209-211 | a value in a buffer of its own with its terminator; all earlier values stay as they are |
| `EdiPool.Pool.Owns` | libedi/stringpool.c:109-124 | a pointer is recognised as pool-owned iff it lies in the used part of a pool |
| `EdiPool.NewRegion` | libedi/stringpool.c:75-87 | buffers stay pairwise disjoint when one more is handed out |
| `EdiParse.ScanValue` | libedi/parse.c:179-208 | the scanning loop with its escape flag |
| `EdiParse.ReadElements` | libedi/parse.c:162-267 | the element loop leaves pointers that mean the elements of the text; unless the message ends here the one pool is enough |
| `EdiParse.ParseMessage` | libedi/parse.c:115-274 | the pointers mean the interchange that the message denotes, value buffers are pairwise disjoint and inside the pools, and without the unterminated error there is no second pool (with it, at most two) |
| `EdiParse.NoneOutside` | libedi/stringpool.c:109-124 | every value that the parser stored is recognised as pool-owned |
| `EdiParse.Destroy` | libedi/build.c:186-216 | frees every pool block once and, of an interchange that the parser made, nothing else |
| `XmlTok.RunIsStable` | expat/lib/xmltok_impl.c:92-879 | an INVALID or complete token other than DATA_CHARS, with its end, is the same on every extension of the buffer, for every class table and all character tests |
| `XmlTok.StepIsStable` | expat/lib/xmltok_impl.c:92-879 | no decision of a scanner depends on where the buffer ends, unless it ends the scan as partial or as data |
| `XmlChunks.RunBounds` | expat/lib/xmltok.h:176-195 | tokens end inside the buffer and are never empty; errors point into the buffer |
| `XmlChunks.DataContinues` | expat/lib/xmltok_impl.c:833-878 | character data that ended early is continued in a longer buffer, or ends there, or is followed by the same error |
| `XmlChunks.TokenIsStable` | expat/lib/xmltok_impl.c:304-376 | in content and in CDATA sections alike, tokens stay what they are in a longer buffer, and data is continued or ends where it did, or meets an error in content |
| `XmlChunks.ContentTok` | expat/lib/xmltok.h:176-195 | a positive token makes strict progress and never passes the end |
| `XmlChunks.PiecesDoNotMatter` | expat/lib/xmlparse.c:2231-2660 | for content in two pieces, CDATA sections included, and whatever the processor makes of markup: the same end, the same error, the same state, and the same events but for data; and exactly the same if and only if the last token of the first piece is not character data of which the rest makes an error, in which case that data has been reported already |
| `XmlChunks.DataBeforeError` | expat/lib/xmltok_impl.c:833-860 | a concrete failing input: a letter, then two brackets and a greater-than sign |
| `XmlChunks.AnyPiecesDoNotMatter` | expat/lib/xmlparse.c:2231-2660 | the same for any number of pieces: exactly the same events iff no piece ends with character data of which the rest makes an error |
| `XmlChunks.SectionIsScanned` | expat/lib/xmlparse.c:2572-2603 | a section in content is scanned by its own tokenizer up to its end, and content goes on behind it |
| `XmlCdata.CdataSectionToken` | expat/lib/xmltok_impl.c:304-376 | the loop with its two lookaheads finds the token of the section |
| `XmlCdata.CdataIsStable` | expat/lib/xmltok_impl.c:304-376 | errors and tokens other than data are the same on every extension of the buffer; data is continued there or ends where it did |
| `XmlCdata.EndsAtFirst` | expat/lib/xmltok_impl.c:304-376 | followed token by token, a section ends at the first two brackets with a greater-than sign, whatever markup stands before, and does not end where there is none (XML 1.0, section 2.7) |
| `XmlCdata.ReportsLineEnds` | expat/lib/xmltok_impl.c:304-376 | the line ends that a section reports are those of its text, CR LF being one (XML 1.0, section 2.11) |
| `XmlCdata.Utf8HasHighTails` | expat/lib/xmltok.c:91-122 | what is asked of the encoding there, for UTF-8 |
| `XmlReads.MarkupIsRead` | expat/lib/xmltok_impl.c:684-781 | all markup of the productions [15], [16], [40], [42], [44] and [66] to [68] of XML 1.0, with names as in Namespaces in XML, is found where it is written, as the token that it is, whatever follows |
| `XmlTokens.TokenIffMarkup` | expat/lib/xmltok_impl.c:784-831 | the tokens of content other than data and line ends are exactly that markup: from the first byte to the last, tag with or without attributes, empty element or not, end tag, comment, processing instruction or XML declaration, reference, start of a section |
| `XmlShape.BeginningTells` | expat/lib/xmltok_impl.c:684-781 | the first bytes decide on the kind of token |
| `XmlShape.TagShape` | expat/lib/xmltok_impl.c:525-781 | where no byte of ASCII is hidden in a character: a tag ends in a greater-than sign, is an empty element iff a slash is before it, and has attributes iff a quote is in it |
| `XmlShape.EndsAtMark` | expat/lib/xmltok_impl.c:382-521 | there, an end tag ends at the first greater-than sign and a reference at the first semicolon |
| `XmlShape.CommentShape` | expat/lib/xmltok_impl.c:92-126 | there, a comment ends at the first two dashes, with a greater-than sign behind them |
| `XmlShape.InstructionShape` | expat/lib/xmltok_impl.c:222-280 | there, a processing instruction ends at the first question mark with a greater-than sign, and is an XML declaration iff its target is xml |
| `XmlShape.NewlineIff` | expat/lib/xmltok_impl.c:784-831 | a line end is a line feed, or a carriage return with the line feed behind it if there is one (XML 1.0, section 2.11) |
| `XmlShape.DataShape` | expat/lib/xmltok_impl.c:833-878 | there, data contains no less-than sign, ampersand, line end or end of a CDATA section, and ends only before one of these, a bracket, something that is no character, or the end of the buffer |
| `XmlShape.DataIsRead` | expat/lib/xmltok_impl.c:833-878 | characters without these, up to markup or a line end, are one token of data |
| `XmlShape.ValidIsWhole` | expat/lib/xmltok.c:91-122 | in valid UTF-8 no byte of ASCII is hidden in a character |
| `XmlScan.ScanHexCharRef` | expat/lib/xmltok_impl.c:431-459 | the loop finds what the automaton finds |
| `XmlScan.ScanCharRef` | expat/lib/xmltok_impl.c:463-491 | the loop finds what the automaton finds |
| `XmlScan.ScanRef` | expat/lib/xmltok_impl.c:495-521 | the loop finds what the automaton finds |
| `XmlScan.RefInValue` | expat/lib/xmltok_impl.c:607-617 | a reference in an attribute value is scanned as in content, and then the value goes on |
| `XmlScan.ScanComment` | expat/lib/xmltok_impl.c:92-126 | the loop with its two lookaheads finds what the automaton finds |
| `XmlScan.ScanPi` | expat/lib/xmltok_impl.c:222-280 | target, its check, and body: as the automaton |
| `XmlScan.ScanCdataSection` | expat/lib/xmltok_impl.c:284-302 | as the automaton |
| `XmlScan.ScanEndTag` | expat/lib/xmltok_impl.c:382-427 | as the automaton |
| `XmlScan.ScanAtts` | expat/lib/xmltok_impl.c:525-678 | the nested loops and jumps over attributes find what the automaton finds |
| `XmlScan.ScanLt` | expat/lib/xmltok_impl.c:684-781 | everything behind a less-than sign, as the automaton |
| `XmlScan.ContentToken` | expat/lib/xmltok_impl.c:784-879 | the whole content scanner is the automaton |
| `XmlChar.CheckCharRefNumber` | expat/lib/xmltok.c:1173-1190 | accepts exactly Char of XML 1.0, section 2.2 |
| `XmlChar.HexNumber` | expat/lib/xmltok_impl.c:1529-1551 | with any number of digits the computation stays in the range of int and gives the number iff it is in Char |
| `XmlChar.DecimalNumber` | expat/lib/xmltok_impl.c:1552-1561 | the same for decimal references |
| `XmlChar.CharRefNumber` | expat/lib/xmltok_impl.c:1523-1565 | the number of a scanned reference, or -1 iff it is not in Char |
| `XmlChar.EncodedIsValid` | expat/lib/xmltok.c:1192-1226 | the UTF-8 form of every scalar passes the validity tests and decodes to it |
| `XmlChar.ValidIsEncoded` | expat/lib/xmltok.c:91-122 | whatever passes the validity tests is the UTF-8 form of exactly one scalar other than U+FFFE and U+FFFF (RFC 3629, section 3) |
| `XmlChar.UnitsOfEncoded` | expat/lib/xmltok.c:1229-1245 | decoding the UTF-8 form to UTF-16 gives the units of XmlUtf16Encode |
| `XmlChar.Utf8ToUtf16` | expat/lib/xmltok.c:340-380 | into limited room go the UTF-16 units of the longest prefix that fits, never half a pair |
| `XmlRef.ScannedCharRef` | expat/lib/xmltok_impl.c:463-491 | a character reference that the scanner accepts consists of digits of its kind up to a semicolon |
| `XmlRef.Utf8IsSound` | expat/lib/xmltok.c:91-122 | UTF-8 with its class table and its validity tests: in a character of several bytes that passes, no byte behind the first is a space or begins a character |
| `XmlExpand.ValueToken` | expat/lib/xmltok_impl.c:1203-1258 | the loop finds the token of the attribute value |
| `XmlExpand.RecursionIffEndless` | expat/lib/xmlparse.c:4937-5085 | with no entity open, the recursion error is reported iff plain expansion never ends (XML 1.0, section 4.1, WFC No Recursion); otherwise the result is the plain expansion, to a depth of at most the number of entities |
| `XmlExpand.GuardedIsPlain` | expat/lib/xmlparse.c:5008-5075 | where the open flags do not strike they change nothing, whatever entities are open |
| `XmlExpand.StrikeIsEndless` | expat/lib/xmlparse.c:5049-5053 | where they strike, plain expansion comes back to an open entity again and again |
| `XmlExpander.AppendAttributeValue` | expat/lib/xmlparse.c:4937-5085 | the recursion over mutable flags computes the guarded expansion, terminates for every entity table, and leaves all flags as they were on every path |
| `XmlExpander.ExpandEntity` | expat/lib/xmlparse.c:5064-5075 | the flag is set during the recursion and cleared after it, also on errors |
| `XmlExpander.StoreAttributeValue` | expat/lib/xmlparse.c:4921-4935 | the stored value, with the final space chopped |
| `XmlStored.StoredIsMeant` | expat/lib/xmlparse.c:4937-5085 | for every value made of characters, of the five predefined references and of character references, and every table of entities: what is stored is white space and line ends as single spaces, CR LF as one, and every other character itself (XML 1.0, sections 2.11, 3.3.3 and 4.6) |
| `XmlStored.Utf8Fits` | expat/lib/xmltok.c:91-122 | what is asked of the tables there, for UTF-8 |
| `XmlStored.EscapedComesBack` | expat/lib/xmltok_impl.c:1567-1610 | any text of valid UTF-8, written with lt, gt, amp, quot and apos by name and line ends and tabs by number, is stored as it is |
| `XmlStored.EntityIsStored` | expat/lib/xmlparse.c:4996-5075 | a reference to an entity of the document: the error for one that is not declared, declared elsewhere, open, unparsed or external, and otherwise its text |
| `XmlStored.NoSuchChar` | expat/lib/xmlparse.c:4958-4966 | a reference to a number that is no character is an error |
| `XmlNormalize.CollapseIsJoin` | expat/lib/xmlparse.c:4921-4935 | what remains of a text are its words joined by single spaces: no leading, trailing or doubled space |
| `XmlNormalize.PoolIsSqueezed` | expat/lib/xmlparse.c:4937-5085 | at every moment the pool of a tokenized value is the squeezed pool of the CDATA value, through all entity levels, when no token of the texts adds a space as part of other characters |
| `XmlNormalize.StoredIsNormalized` | expat/lib/xmlparse.c:4921-5085 | for such texts a value that is not CDATA has the errors of the CDATA value, and is its words joined by single spaces (XML 1.0, section 3.3.3) |
| `XmlNormalize.PlainIsStored` | expat/lib/xmlparse.c:2784-2815 | a value without references, line ends and superfluous white space, and with no space inside a character of several bytes, is stored as it stands, as CDATA and otherwise |
| `XmlGetAtts.KeepsPace` | expat/lib/xmltok_impl.c:1437-1515 | inside an accepted tag the looser scanner is always in the state that fits the tokenizer |
| `XmlGetAtts.GetAtts` | expat/lib/xmltok_impl.c:1430-1521 | for every accepted tag: the number of attributes is right, and for those with room in the array name, value and end are those of the tokenizer, and normalized is set iff the value is plain |
| `XmlTagSpans.AttributesAreWritten` | expat/lib/xmltok_impl.c:1430-1521 | in every tag of the grammar the attributes that getAtts finds are those that are written there, in order, each with the place of its name and of its value |
| `XmlGetAtts.TagTokenIsTag` | expat/lib/xmltok_impl.c:684-781 | whatever the tokenizer returns as a start tag or empty element meets what getAtts requires |
| `XmlGetAtts.MarkedIsStored` | expat/lib/xmlparse.c:2784-2815 | for every attribute of every accepted tag, whatever surrounds it: copying the raw bytes of a value marked as normalized is what storing it would produce, whatever its type; of the encoding it is only asked that valid characters hide no spaces, as UTF-8 does |
| `XmlTagValues.RefInSlice` | expat/lib/xmltok_impl.c:495-521 | a reference that the tokenizer has found is found again in every slice that holds it |
| `XmlTagValues.ValueIsGood` | expat/lib/xmltok_impl.c:1202-1258 | read by itself, the value of an attribute of an accepted tag has no bad token, and no token adds a space but as a blank |
| `XmlTagValues.TagValueIsNormalized` | expat/lib/xmlparse.c:4921-5085 | for every attribute of every accepted tag: no invalid token in it, and a value that is not CDATA is stored as the words of the CDATA value joined by single spaces, when the texts of the entities add no space as part of other characters |
| `XmlTagValues.ValidEntitiesAreClean` | expat/lib/xmlparse.c:4937-5085 | entity texts in valid UTF-8 add no space as part of other characters |
| `XmlTagValues.Utf8ValueIsNormalized` | expat/lib/xmlparse.c:4921-5085 | in UTF-8, with entity texts in valid UTF-8: for every attribute of every accepted tag, a value that is not CDATA is stored as the words of the CDATA value joined by single spaces, with the same errors |
| `XmlNamespace.CheckBinding` | expat/lib/xmlparse.c:3050-3115 | the loops decide the constraints of Namespaces in XML 1.0, section 3, on prefixes and URIs |
| `XmlNamespace.Allowed` | expat/lib/xmlparse.c:3056-3115 | which declarations are accepted, rule by rule: xml stands for its own namespace and nothing else does, xmlns is not declared and its namespace not used, and only the default namespace is undeclared |
| `XmlNamespace.Bindings.AddBinding` | expat/lib/xmlparse.c:3046-3161 | a refused declaration changes nothing; another one is in force for its prefix: an empty URI leaves the default prefix without a binding, any other URI is that of its binding, which comes from the free list or is new |
| `XmlNamespace.Bindings.OpenTag` | expat/lib/xmlparse.c:2403-2405 | a start tag begins with an empty list |
| `XmlNamespace.Bindings.PopBinding` | expat/lib/xmlparse.c:2536-2544 | one turn of the loop at an end tag undoes the newest declaration |
| `XmlNamespace.Bindings.CloseTag` | expat/lib/xmlparse.c:2481-2489 | closing a tag leaves the declarations that were in force when it was opened; bindings move from the tag to the free list and none is lost or shared |
| `XmlNamespace.Bindings.InForce` | expat/lib/xmlparse.c:2481-2544 | at every moment the binding of a prefix is the innermost declaration found by walking the open tags, and no namespace is ever the empty string (Namespaces in XML 1.0, sections 6.1 and 6.2) |
| `XmlNamespace.Bindings.InnermostDecl` | expat/lib/xmlparse.c:3147-3153 | a prefix has no namespace when it is not declared or its innermost declaration is empty, and otherwise the URI of that one |
| `XmlNamespace.InnermostIsLast` | expat/lib/xmlparse.c:3141-3151 | walking tag by tag and taking the last declaration in force are the same |
| `XmlNamespace.ElementRestores` | expat/lib/xmlparse.c:2481-2544 | in every run, a well-matched element, whatever it declares and contains, leaves the declarations, their bindings and the open tags as they were |
| `XmlNamespace.Bindings.Process` | expat/lib/xmlparse.c:2481-3161 | tags and declarations in any order are such a run, up to a declaration that is refused; there is an error iff one is |
| `XmlNamespace.Bindings.ReadElement` | expat/lib/xmlparse.c:2481-2544 | after an element without refused declarations every prefix has the very binding, with the same namespace, that it had before |
| `XmlContext.GetContext` | expat/lib/xmlparse.c:5492-5559 | prints default namespace, bound prefixes and open entities, separated by form feeds |
| `XmlContext.ItemsOfPrint` | expat/lib/xmlparse.c:5492-5620 | reading the printed context gives the items back, also where URIs contain an equals sign |
| `XmlContext.SetContext` | expat/lib/xmlparse.c:5561-5620 | the two-pointer loop applies the items up to the first that addBinding refuses |
| `XmlContext.SetUndoesGet` | expat/lib/xmlparse.c:5492-5620 | a fresh parser gets the same default namespace, the same namespace for every prefix and the same open entities |
| `XmlContext.OrderDoesNotMatter` | expat/lib/xmlparse.c:5492-5620 | whatever the order in which the hash tables are walked |
| `XmlPool.Pool.Grow` | expat/lib/xmlparse.c:6209-6270 | the string being built keeps its characters and gets strictly more room; finished strings keep block, place and content, because only a block that the current string starts is replaced |
| `XmlPool.Pool.Enlarge` | expat/lib/xmlparse.c:6237-6250 | replacing the current block loses no finished string |
| `XmlPool.Pool.MoveToFree` | expat/lib/xmlparse.c:6222-6235 | the string moves to a larger free block, and no other string does |
| `XmlPool.Pool.NewBlock` | expat/lib/xmlparse.c:6251-6269 | a new block, more than as large as the room before |
| `XmlPool.Pool.AppendChar` | expat/lib/xmlparse.c:454-457 | one character more, finished strings untouched |
| `XmlPool.Pool.Convert` | expat/lib/xmlparse.c:6150-6151 | as much of the text as the conversion copies goes behind the string |
| `XmlPool.Pool.Append` | expat/lib/xmlparse.c:6144-6158 | the text is appended from UTF-8 over as many blocks as needed, whole, although the conversion may tear characters on the way |
| `XmlPool.Pool.CopyString` | expat/lib/xmlparse.c:6160-6170 | a finished string more, terminated, at the returned address |
| `XmlPool.Pool.StoreString` | expat/lib/xmlparse.c:6197-6207 | the text and a terminator are appended |
| `XmlPool.Pool.Finish` | expat/lib/xmlparse.c:453 | the string being built becomes a finished one where it is |
| `XmlPool.Pool.Discard` | expat/lib/xmlparse.c:452 | the string being built is given up |
| `XmlPool.Pool.Clear` | expat/lib/xmlparse.c:6107-6125 | all blocks, and no others, can be used again |
| `XmlPool.Pool.Use` | expat/lib/xmlparse.c:6096-6271 | however a pool is used between two clearings, every finished string stays where it is with its characters, and the strings are those that were asked for |
| `XmlConvert.Utf8ToUtf8` | expat/lib/xmltok.c:321-338 | copies as many bytes as the limit, moved back over the last bytes of characters, allows, and nothing else |
| `XmlConvert.CopiesWholeChars` | expat/lib/xmltok.c:327-333 | the copy ends at the end of a character iff everything fits, or nothing, or the last byte that fits is a character of its own; otherwise, against the comment there, a character is torn |
| `XmlConvert.EuroIsTorn` | expat/lib/xmltok.c:327-333 | a character is torn although all of it fits: the first byte of three |
| `IconvCodec.ScalarIsChar` | win32/win_iconv.c:1017-1041 | UCS-4 to UTF-16 and back (RFC 2781, section 2.1) |
| `IconvCodec.CharIsScalar` | win32/win_iconv.c:1017-1041 | and the other way round (RFC 2781, section 2.2) |
| `IconvCodec.Resumes` | win32/win_iconv.c:789-887 | a call that stops for lack of room or input, or at an error, and a call with the rest are one call |
| `IconvCodec.CallsDoNotMatter` | win32/win_iconv.c:789-887 | any number of calls, with input in any pieces and any output rooms, and a last one put out what one call with ample room puts out and end as it does |
| `IconvCodec.ReadsWritten` | win32/win_iconv.c:1292-1476 | reading undoes writing, in either byte order |
| `IconvCodec.WritesSpelling` | win32/win_iconv.c:1343-1476 | exactly the bytes that spell a character in UTF-16 or UTF-32, by their place values, are written for it (RFC 2781, section 2.1) |
| `IconvCodec.ReadsSpelling` | win32/win_iconv.c:1292-1432 | a character is read from the bytes that spell it in the byte order in force |
| `IconvCodec.MarkIsSpelled` | win32/win_iconv.c:1343-1476 | the mark is U+FEFF in the byte order of the codec |
| `IconvCodec.WhyNotRead` | win32/win_iconv.c:1292-1432 | input is incomplete iff it has fewer bytes than its first unit asks for, and illegal iff it has enough and no extension of it can be read |
| `IconvCodec.HopelessByte` | win32/win_iconv.c:1299-1301 | a byte that no other can complete is reported as incomplete |
| `IconvCodec.Converts` | win32/win_iconv.c:789-887 | a text in one UTF-16 or UTF-32 codec becomes the same text in another, byte order marks included, also when the mark announces the other byte order (RFC 2781, section 3.2) |
| `IconvCodec.ConvertsUnmarked` | win32/win_iconv.c:1292-1432 | a text without a mark, for a codec that uses marks: it becomes the same text unless its first character is taken for a mark; U+FEFF is dropped, and behind U+FFFE the rest of a UTF-16 text is read in the other byte order |
| `IconvCodec.RoundTrip` | win32/win_iconv.c:789-887 | converting to the other form and back leaves well-formed text unchanged |
| `Iconv.Converter.Mbtowc16` | win32/win_iconv.c:1292-1340 | reads one character or mark and sets the mode |
| `Iconv.Converter.Mbtowc32` | win32/win_iconv.c:1395-1432 | the same for UTF-32 |
| `Iconv.Converter.Wctomb` | win32/win_iconv.c:1343-1476 | writes one character, behind a mark the first time, or reports lack of room; writes nowhere else |
| `Iconv.WinIconv` | win32/win_iconv.c:789-887 | a call with input is the conversion: a character that cannot be read or written leaves no trace in modes and positions; a call without input puts nothing out and makes the converter as good as new |

## Left out

- Parameter entity references inside declarations, conditional sections and the other declarations of the prolog: the role automaton is modelled for element declarations.
- Element declarations with no handler registered: the scaffold is then not built, and only the automaton runs.
- The tokenizers of the prolog, of ignored sections and of entity values, and encodings with units of several bytes.
- XmlChunks.ScanAll: the content of one element or external entity, from its start to where the processor leaves it; what is made of a bracket or carriage return at the very end of a document, and suspending the parser, are left out.
- Clearing and iterating over hash tables, beyond the fact that the order of iteration is arbitrary.
- XmlExpand.ValueTok: a character cut off at the end of a text counts as ending there; the C code relies on texts made of whole characters and would read on.
- XmlNormalize.PoolIsSqueezed: the texts add no space as part of other characters; for the values of accepted tags (`XmlTagValues.ValueIsGood`) and for entity texts in valid UTF-8 (`XmlTagValues.ValidEntitiesAreClean`) this is proved.
- XmlNormalize.StoredIsNormalized: likewise.
- XmlTagValues.Utf8ValueIsNormalized: that the texts of entities are valid UTF-8 is assumed, since the tokenizer of entity values is not modelled.
- XmlNormalize.PlainIsStored: the value hides no space in a character; for accepted tags this is proved in `XmlGetAtts.MarkedIsStored`.
- XmlPool.Pool.Append: the conversion from UTF-8 only; the other converters fill the block in the same way.
- XmlShape.TagShape: texts in which no byte of ASCII is hidden in a character, as in valid UTF-8 (`XmlShape.ValidIsWhole`); for other texts `XmlTokens.TokenIffMarkup` holds, by characters.
- XmlShape.EndsAtMark: likewise.
- XmlShape.CommentShape: likewise.
- XmlShape.InstructionShape: likewise.
- XmlShape.DataShape: likewise.
- XmlChar.Utf8ToUtf16: valid UTF-8 only, as the tokenizer lets pass; for a character that is cut off the C code reads behind the text.
- XmlPool.Pool.Finish: an empty string is not counted as finished, since there is no content to keep; its address may be given up when the block grows.
- XmlContext.SetContext: the effect of addBinding is stated on the namespaces of prefixes; the bindings themselves are those of XmlNamespace.
- The tags of the tag stack are modelled as the sequence of their binding lists; raw names, tag buffers and the copying of URIs into element names are not modelled.
- Moving all bindings to the free list on a parser reset.
- Iconv.WinIconv: no compatibility tables and no flush function, which the Unicode codecs never have.
- EdiBuild.AddHdrTrailer: formats with the backspace directive, as the one of X12, or a trailing percent sign, behind which the C code reads on.
- EdiBuild.AddSegment: likewise.
- EdiBuild.Build: formats with the backspace directive or a trailing percent sign, and a composite first element together with a header, where the C code reads the wrong member of a union.
- EdiDetect.ByteAt: positions beyond a short message read as NUL; the C code reads behind the string there.
- The tag pointer and the back pointers of segments and elements, and the blocks of eight in which their arrays grow.
- Constructing interchanges by `edi_element_add`, the registry functions of detection, libedistruct and libedixml: no law of theirs is harder than those above.
- Lack of memory, overflow of sizes, locking, handlers and the public setters.

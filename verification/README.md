# Verified model of the playlist parser

This project models, in Dafny, the parts of the playlist parser that have no
library underneath: its XML lexer, tree builder, escaper and printer, the
comment blanking that goes before them, the PLS and PLA writers and readers,
the recursion guard of `idol_pl_parser_parse_internal` and the SMIL walk.
`dafny verify dfyconfig.toml` checks everything.

Code that works step by step is modelled step by step: the lexer, one
activation of the tree builder, the printer, the PLS and SMIL parsers and the
guard are classes or methods with the C code's variables and loops, proved to
do what a function of their input says; the theorems are about those functions.

| files | what they model |
|---|---|
| `CText`, `Decimal`, `Utf8`, `Utf16` | C strings, `%d` and `strtol`, UTF-8 (section 2 of RFC 2279), UTF-16BE (sections 2.1 and 2.2 of RFC 2781) |
| `Entities`, `References` | `xml_escape_string` and `lexer_decode_entities` (sections 4.1 and 4.6 of XML 1.0); which texts are numeric references |
| `XmlLexer`, `XmlLexerCode` | `lexer_get_token_d_r`: three modes crossed with the states of a token, with a token buffer of 64 KiB that grows; as a function and as code |
| `XmlTree`, `XmlBuilder`, `XmlParser`, `XmlMachine` | trees; the recursive builder with its return codes, as a function and as code; the explicit-stack machine it refines |
| `XmlRoot`, `XmlRelaxed` | deletion of top-level text, rotation of the root by relinking, the whole parse |
| `XmlSections` | what the token buffer holds at the end of a CDATA section |
| `XmlSyntax`, `XmlSyntaxLexing`, `XmlDocuments`, `XmlElements` | documents the way they are written and what they mean, without lexer and parser; that the parser reads them so, with and without the handlers' flags |
| `XmlPrinter`, `XmlRoundTripLexing`, `XmlRoundTrip` | the tree printer and its round trip |
| `XmlMarks`, `XmlAtoms`, `XmlOverflow`, `XmlPrinted`, `XmlRoundTripExact` | why a tree does not come back once a token of its text has filled the token buffer, and so the exact condition of the round trip |
| `XmlExamples`, `XmlUnnoticed` | texts that show what the token buffer and an error behind the root do; trees that come back although a value in them does not fit |
| `CommentBlanker` | `idol_pl_parser_cleanup_xml` |
| `Playlist`, `PlsText`, `PlsScan`, `PlsParser`, `PlsRoundTrip`, `PlsEntries`, `PlsExamples` | playlists in memory, lines and ini keys, the numbered scan, the PLS parser, the PLS writer and its round trip, the same by the lines and keys of a text, two playlists that the scan does not take as one might expect |
| `Pla`, `PlaBytes` | the PLA writer and reader; the bytes of a file |
| `ParseGuard`, `GuardResults` | the recursion guard, over any graph of playlists; when a call has which result |
| `Smil`, `SmilNames` | the SMIL walk; the same by the names in a document |

A `char` stands for one byte.  Text behind the first NUL is not seen by C
string functions, and the model does the same.

## What the code does that one might not expect

These follow from the code and are proved; nothing in the repository's
documentation mentions them.

- An XML text with a comment or document type that never ends keeps the tree
  builder in its loop for ever: no number of further calls of the lexer is
  enough (`XmlMachine.ParseHangsExactlyInOpenSkips` gives the exact condition;
  `XmlRelaxed.OpenCommentNeverEnds` shows the text `<!--`, which comment
  blanking leaves alone).
- A token that fills its buffer is forgotten, and the lexer goes on behind it
  with a larger buffer.  So a printed tree with a long name or value does not
  come back (`XmlRoundTripExact.TreeComesBackIff` gives the exact condition;
  `XmlExamples.SeventyThousandLetters` shows a value that is cut).  This is for
  names in which nothing is escaped; with any other character that a name can
  hold there is a tree that comes back although a value in it does not fit
  (`XmlUnnoticed.OnlyOrdinaryNamesAreExact`).
- The terminator of a token is stored without a look at the buffer's size where
  it comes with the last character, so behind the buffer if that was full
  (`XmlLexer.LeavesBufferIff` says exactly when; `XmlExamples.TokenEndsBehindBuffer`
  has a text).
- The result of building a tree does not depend on the parser's own return
  code: an error behind the root still counts as success
  (`XmlExamples.ErrorBehindRoot` shows `<a></a><`), while an error inside an
  element at the top level loses that element
  (`XmlRoot.FailureKeepsCompleted` says when a parse that returns -1 succeeds).
- The text of a CDATA section is not terminated in the token buffer, so what was
  there before goes on behind it: of a section with less than nine characters
  the rest of `<![CDATA[` is appended too (`XmlSections.SectionTextIff` gives the
  exact condition).
- `--->` does not end a comment (`XmlSyntaxLexing.LexThreeDashes`).
- A word behind a comment makes the parse fail, because the lexer reads markup
  there (`XmlElements.TextBehindCommentFails`); so does `<?name?>` without white
  space in front of the `?>` (`XmlElements.QuestionNeedsGap`).  An attribute
  without a value is forgotten in front of another one, and makes the parse
  fail in front of `/>` (`XmlElements.AttributeWithoutValue`).
- The PLS scan does not end when entries were counted but no key has a number
  that the 32-bit counter prints.  When there are such keys but also counted
  lines with equal or other keys, it ends only because the counter wraps
  around, and then meets some key twice (`PlsScan.ScanEndsIff`,
  `PlsScan.MeetsEachOnceIff`; `PlsExamples` has a playlist of each kind).
- The return for unsafe types leaves the recursion level one too high.  Enough
  unsafe files in a playlist make its later playlists too deep
  (`ParseGuard.TooDeepBehindUnsafeFilesIff`, `ParseGuard.UnsafeFilesHideLaterOnes`).
- The offset stored in a PLA record counts bytes of the UTF-8 name, so it points
  at the base name among the UTF-16 units only behind an ASCII directory
  (`Pla.OffsetIsBaseNameIff`).
- The SMIL parser succeeds exactly when the document has a `body`, with or
  without entries, because the walk never returns 0
  (`Smil.Parser.ParseSmilEntries`); and entries come out after everything nested
  behind them (`Smil.EntryComesAfterNested`).

## Model

| member | source | states |
|---|---|---|
| Utf8.EncodeIsShortestAndDecodes | plparse/xmllexer.c:667-682 | For every code point below 2^31 the stored bytes are well formed, decode back to it by an independent decoder, and no shorter form could hold it |
| Utf8.EncodingsArePrefixFree | plparse/xmllexer.c:667-682 | No encoding is a prefix of another code point's |
| Utf8.LargeNumbersAreCut | plparse/xmllexer.c:667-682 | Of a number that takes more than five bytes its low 32 bits are stored: two in the first byte and six in each of the others, highest first |
| Entities.StoreChar | plparse/xmllexer.c:667-682 | The store through the write pointer puts exactly the encoding into the buffer and keeps what is before it |
| Entities.StoreContinuation | plparse/xmllexer.c:680-681 | The loop over the continuation bytes stores exactly those of the encoding, highest bits first |
| Entities.DecodeUndoesEscape | plparse/xmlparser.c:810-842 | Decoding an escaped text gives the text back, for every NUL-free text and all three quote modes |
| Entities.EscapeIsClean | plparse/xmlparser.c:810-836 | The escaped text has no `<`, no `>`, no active quote, and no `&` that does not start a reference the decoder understands |
| Entities.EscapeKeepsIff | plparse/xmlparser.c:810-836 | Escaping leaves a text as it is if and only if all its characters are printable ones, tabs or line feeds that are neither `<`, `>`, `&` nor the active quote |
| Entities.EscapeInternal | plparse/xmlparser.c:810-836 | Without a buffer the loop returns one more than the length of the escaped text; with a buffer of exactly that size it fills it to the last byte and never stores outside |
| Entities.EscapeString | plparse/xmlparser.c:838-842 | Sizing and filling together give the escaped text with its NUL in a buffer of exactly its size |
| Entities.DecodeNeverGrows | plparse/xmllexer.c:616-687 | Whatever mixture of named, decimal, hexadecimal and malformed references a text holds, its decoded form is no longer than it |
| Entities.DecodeEntities | plparse/xmllexer.c:616-687 | The loop writes the decoded text and a NUL into a buffer of `strlen + 1` bytes without ever leaving it |
| Entities.DecodeReference | plparse/xmllexer.c:628-682 | One reference takes the characters it should, stores what it stands for, and stores no more than it takes |
| Entities.FindEntity | plparse/xmllexer.c:632-636 | The search of the entity table finds the entry that the text names, with its semicolon, if there is one |
| References.DecodeOfReference | plparse/xmllexer.c:646-682 | `&#` or `&#x`, a positive number (with white space, a plus sign and, for base 16, a prefix in front of its digits, in letters of either case) and `;` decode to the UTF-8 form of the number, which 64 bits hold or cut off, and decoding goes on behind them |
| References.DecodeOfPrinted | plparse/xmllexer.c:646-682 | So a code point printed in decimal, or in hexadecimal with letters of either case, decodes to its UTF-8 form |
| References.LiteralIff | plparse/xmllexer.c:626-663 | An ampersand stands for itself, with everything behind it left to be read, if and only if neither one of the five names with its semicolon nor such a number follows: malformed references stay literal text |
| References.StrtolOfNumber | plparse/xmllexer.c:653-656 | `strtol` takes a written number in base 10 or 16 as a whole and gives the value of its digits |
| Decimal.StrtolLength | plparse/xmllexer.c:653-656 | A reference number of 256 or more takes at least three characters, which is what keeps the UTF-8 form from outgrowing the reference |
| XmlLexer.LexProgress | plparse/xmllexer.c:164-595 | The cursor never leaves the text, and every call that returns neither end of file nor an error makes 2 * (characters left) + (1 in data mode) smaller, also when the call starts again behind a full buffer, when `-->` is pushed back and for the empty data token |
| XmlLexerCode.Lexer.GetToken | plparse/xmllexer.c:164-595 | The character loop over the lexer's fields, with a full buffer doubled and the call started again behind it, returns the token, buffer contents, buffer size, cursor, mode and comment flag that `Lex` gives, for every text and buffer size, and stores nothing behind the buffer's size unless `LeavesBuffer` says so |
| XmlLexer.LeavesBufferIff | plparse/xmllexer.c:277-444 | A call stores behind `tok_size` bytes if and only if the token it returns is a `</`, `<?`, `/>`, `?>` or `-->` that makes it exactly as long as the buffer, a comment start that is as long or longer, a document type or CDATA start that is longer, or an identifier that was exactly as long with the `-->` that was pushed back |
| XmlLexer.RoundLeavesBufferIff | plparse/xmllexer.c:277-444 | The same for one round of the loop, in terms of the token position, the state and the characters to come |
| XmlExamples.TokenEndsBehindBuffer | plparse/xmllexer.c:389-401 | 65534 letters and `?>` are such a text for the 64 KiB buffer |
| XmlLexerCode.Lexer.IdleChar | plparse/xmllexer.c:181-250 | The first character selects the token's state and is stored unless it is a quote |
| XmlLexerCode.Lexer.MStartChar | plparse/xmllexer.c:277-303 | After `<` the kinds of tag start are told apart, and only `/`, `!` and `?` are taken |
| XmlLexerCode.Lexer.IdentChar | plparse/xmllexer.c:405-495 | Identifiers run to the characters that end them, through the states for dashes and `?` |
| XmlLexerCode.Lexer.RunChar | plparse/xmllexer.c:253-456 | Runs of line ends and blanks, and quoted strings, take what belongs to them and give back the rest |
| XmlLexerCode.Lexer.StopChar | plparse/xmllexer.c:306-334 | The states that end at once return their token and switch to data mode outside comments |
| XmlLexerCode.Lexer.DataChar | plparse/xmllexer.c:497-531 | In data and CDATA mode characters are collected up to `<` or `]]>`, which change the mode |
| XmlLexerCode.Lexer.AtEnd | plparse/xmllexer.c:555-590 | A token cut off by the end of the text is returned as its state says |
| XmlLexerCode.Lexer.CStopChar | plparse/xmllexer.c:422-444 | After `--` a `>` ends the comment or is pushed back with both dashes, and the buffer and cursor are left as `CStopStep` says |
| XmlLexerCode.Lexer.CommentChar | plparse/xmllexer.c:347-385 | After `<!` the start of a comment, document type or CDATA section is told from an error, with its effect on mode and comment flag |
| XmlLexer.EndOfFileIsStable | plparse/xmllexer.c:555-562 | At the end every further call returns end of file and changes nothing |
| XmlLexer.EofEndsText | plparse/xmllexer.c:555-562 | End of file is only returned once the whole text is read |
| XmlLexer.TokensHaveNoEof | plparse/xmllexer.c:555-562 | No token in front of the end of the text has the kind of the end of file |
| XmlLexer.UndeclaredTokens | plparse/xmllexer.c:347-385 | A text without `<!-` and `<!D` yields no token that starts a comment or document type, whatever CDATA sections it has |
| XmlSyntaxLexing.LexEndMark | plparse/xmllexer.c:313-401 | `/>` is the end of a tag without content and `?>` that of a `<?` tag, and character data follows either |
| XmlSyntaxLexing.LexQuoted | plparse/xmllexer.c:336-456 | A value in quotes of either kind, inside a comment or not, is one string without its quotes |
| XmlSyntaxLexing.LexDeclaration | plparse/xmllexer.c:347-385 | `<!--`, `<!DOCTYPE` and `<![CDATA[` start a comment, a document type and a CDATA section, each with its mode and comment flag |
| XmlSyntaxLexing.LexSection | plparse/xmllexer.c:510-531 | A CDATA section ends at its first `]]>` and character data follows |
| XmlSections.ReadCdata | plparse/xmllexer.c:370-531 | Reading a CDATA section that fits leaves in the token buffer its text, behind it what the start mark's nine characters have there, and behind those what was in the buffer before |
| XmlSections.SectionTextIff | plparse/xmllexer.c:370-531 | So the C string that is appended is the section's text if and only if that has nine characters or more and an earlier token has left a NUL right behind it |
| XmlSections.ShortSectionGoesOn | plparse/xmllexer.c:370-531 | Two characters in a section are appended with `[CDATA[` behind them |
| XmlSyntaxLexing.LexLastWord | plparse/xmllexer.c:421-444 | A `-->` right behind a word of a comment is not part of the word, which is returned, and is read again |
| XmlSyntaxLexing.LexWordBefore | plparse/xmllexer.c:458-475 | A word is ended by an angle bracket, a backslash, a double quote, white space, an equals sign or a slash, which is left to be read |
| XmlSyntaxLexing.LexWordWithMark | plparse/xmllexer.c:388-481 | A `?>` right behind a word is taken into one token with it, which ends a `<?` tag, also in a comment |
| XmlSyntaxLexing.LexThreeDashes | plparse/xmllexer.c:405-444 | Three dashes are a word, so `--->` does not end a comment |
| XmlSyntaxLexing.TagEndInComment | plparse/xmllexer.c:306-311 | In a comment `>` does not start character data |
| XmlSyntaxLexing.MarksInComment | plparse/xmllexer.c:211-241 | In a comment `/` and `?` begin the next token |
| XmlSyntaxLexing.StepFailsIff | plparse/xmllexer.c:313-401 | Inside a text a token is an error if and only if `/` or `?` was not followed by `>`, or `<!` by `-`, `DOCTYPE` or `[CDATA[` |
| XmlSyntaxLexing.CutOffWord | plparse/xmllexer.c:555-590 | At the end of the text a word is data, an open string is returned, and a word that ends in one or two dashes or a question mark is an error |
| XmlSyntaxLexing.CutOffMarks | plparse/xmllexer.c:555-590 | There `<`, `>` and `=` are returned |
| XmlSyntaxLexing.CutOffStarts | plparse/xmllexer.c:555-590 | There `/`, `?` and a dash are errors and white space is no token |
| XmlTree.AppendTextKeepsMerged | plparse/xmlparser.c:205-240 | Appending text keeps child lists free of a leading or doubled text node |
| XmlTree.AppendTextOfConcat | plparse/xmlparser.c:205-240 | Appending two texts is appending them as one, in their order, for every node and both kinds of text |
| XmlTree.AppendTextToEmpty | plparse/xmlparser.c:205-240 | The first text of a node becomes its data without the white space in front, and is no data exactly when it is all white space |
| XmlSyntax.AddAllIsContent | plparse/xmlparser.c:205-240 | Texts and nodes linked one after the other make the data that all text (with several text nodes: the text in front of the first node) comes to without leading white space, and the list of nodes with, for several text nodes, one text node for all text between two of them |
| XmlBuilder.Nearest | plparse/xmlparser.c:464-479 | The search for the open tag of a close tag finds the innermost one of that name, or nothing exactly when there is none |
| XmlParser.Frame.AppendText | plparse/xmlparser.c:205-240 | In-place appending of text changes data and children as the specification of merging says |
| XmlParser.Frame.StepIdle | plparse/xmlparser.c:274-315 | Between tags, tag starts select the state and data is decoded and appended |
| XmlParser.Frame.StepNode | plparse/xmlparser.c:317-347 | A tag's name is taken, upper-cased without regard to case, with its `?` if it has one |
| XmlParser.Frame.StepAttribute | plparse/xmlparser.c:349-455 | The attribute states act on an activation's variables as the specification says |
| XmlParser.Frame.StepEquals | plparse/xmlparser.c:508-576 | A token that does not belong to an attribute is handed on by the bypass flag to a state that consumes it, to the same effect as if it were dealt with at once |
| XmlParser.Frame.StepString | plparse/xmlparser.c:578-606 | A string or identifier becomes the decoded value of a new last property |
| XmlParser.Frame.StepNodeClose | plparse/xmlparser.c:457-493 | The downward search of `root_names` leaves the return code -(1 + missing close tags) for the nearest tag of that name |
| XmlParser.Frame.StepSkip | plparse/xmlparser.c:495-505 | The states that wait for one closing token act as the specification says |
| XmlParser.FetchToken | plparse/xmlparser.c:264-281 | The loop condition takes the lexer's next token, for any text and buffer, and ends the activation on a lexer error as `GetNode` does |
| XmlParser.OpenSubtree | plparse/xmlparser.c:361-386 | The recursive call's subtree is linked unless it failed, and its code is handed on one level closer; the entries of `root_names` up to the activation's own are kept |
| XmlParser.GetNodeInternal | plparse/xmlparser.c:245-671 | For any number of calls of the lexer, the recursive loop with its bypass flag, growing token buffer and 26-level limit returns the code and builds the content that `GetNode` gives for the tokens of these calls, or has not returned when that says so; every access to `root_names` is in bounds |
| XmlParser.GetNodeOf | plparse/xmlparser.c:673-696 | The same for a whole text, read from the start with a token buffer of 64 KiB |
| XmlMachine.RecursionIsStackMachine | plparse/xmlparser.c:245-671 | For every token stream, with any number of ends of file, the recursive parse and an explicit stack machine (pop to the nearest open tag of the name, ignore a close tag without one, close one tag for each end of file) agree on tree, error and not having returned, and the top level returns no code that is still to be unwound |
| XmlMachine.UnwindClose | plparse/xmlparser.c:372-385 | A return code, unwound one activation at a time, becomes 0 at exactly the level whose tag was named |
| XmlMachine.CodesStayInRange | plparse/xmlparser.c:464-479 | An activation with n open tags returns 0, -1 or a code from -2 down to -n, so no code asks for more levels than there are and level 0 is never unwound past |
| XmlMachine.CloseTagClosesNearest | plparse/xmlparser.c:466-474 | In relaxed mode a close tag closes every open tag down to the nearest one of its name |
| XmlMachine.UnmatchedCloseTagIsIgnored | plparse/xmlparser.c:475-479 | In relaxed mode a close tag that matches no open tag changes nothing |
| XmlMachine.ParseHangsExactlyInOpenSkips | plparse/xmlparser.c:608-627 | A parse does not return, however many ends of file follow its tokens, if and only if one of the tokens starts a comment or document type, is met between tags, and none of the tokens behind it ends that or is an error |
| XmlMachine.OpenCommentHangs | plparse/xmlparser.c:608-616 | The parse of `<!--` does not return, however many ends of file follow |
| XmlMachine.NoDeclarationNoHang | plparse/xmlparser.c:245-671 | A text without `<!-` and `<!D` is always parsed to an end, also with CDATA sections |
| XmlRoot.TextIsMerged | plparse/xmlparser.c:205-240 | After parsing any tokens no child list, at any depth, starts with a text node or holds two adjacent ones |
| XmlRoot.DeleteText | plparse/xmlparser.c:710-726 | The deletion loop, which never re-points the head, leaves the chain of the first node and the later element nodes in order |
| XmlRoot.LinkedIsElements | plparse/xmlparser.c:710-726 | When the first node is an element, that chain is exactly the elements |
| XmlRoot.RotateRoot | plparse/xmlparser.c:728-747 | The search and the pointer moves succeed exactly for some `?` nodes followed by one other node, and give the chain with that node in front |
| XmlRoot.MoveTail | plparse/xmlparser.c:735-740 | The two pointer writes make the chain's last node its first and leave the others in order |
| XmlRoot.RootConservesNodes | plparse/xmlparser.c:728-747 | A tree results if and only if the elements are its tail of `?` nodes, in document order, followed by its head, which is no `?` node |
| XmlRoot.BuildTree | plparse/xmlparser.c:703-749 | The whole build, from text to linked chain, for any number of calls of the lexer: it has not returned, it fails, or the chain holds the nodes of the outcome in order |
| XmlRoot.EnoughCalls | plparse/xmlparser.c:264-281 | As many calls as the text has tokens, and 26 for the end of file, settle the outcome: more calls change nothing |
| XmlRoot.UnendedNeverReturns | plparse/xmlparser.c:245-696 | A text has no outcome if and only if no number of calls of the lexer makes the parse return |
| XmlRoot.FailureKeepsCompleted | plparse/xmlparser.c:698-749 | A parse that returns -1 leaves exactly the nodes that were complete at the top level in front of the token it failed at, and succeeds if and only if their elements are some `?` nodes and then one other node |
| XmlDocuments.ReadItems | plparse/xmlparser.c:245-671 | From any place of a parse, written items (tags with attributes in any quotes or none and white space anywhere, tags that close themselves, `<? ?>` tags, character data, CDATA sections, comments, document types) whose tokens fit the buffer add exactly the nodes and texts that they mean |
| XmlDocuments.DocumentIsRead | plparse/xmlparser.c:673-749 | A written document is parsed to its only element with the `<? ?>` nodes behind it in their order, and fails if it has no element, several, or a `<? ?>` tag behind it |
| XmlElements.LeafIsEmptyTag | plparse/xmlparser.c:388-432 | `<name attributes/>` leaves the parser exactly where `<name attributes></name>` does, with the rest read as character data |
| XmlElements.ElementIsRead | plparse/xmlparser.c:673-749 | The text of one element, also of one that closes itself, parses to that element |
| XmlElements.TextIsRead | plparse/xmlparser.c:205-315 | An element with escaped text and CDATA sections in any order has as data the texts one behind the other, references resolved outside of the sections only, without white space in front |
| XmlElements.PropsAreRead | plparse/xmlparser.c:578-606 | An element that closes itself, with values escaped for the quotes around them, of either kind, parses to the element with these values |
| XmlElements.AttributeWithoutValue | plparse/xmlparser.c:508-576 | An attribute without a value is a property right in front of `>` or `?>`, is forgotten in front of another attribute, and makes the parse fail in front of `/>` |
| XmlElements.TextBehindCommentFails | plparse/xmlparser.c:274-315 | A word behind a comment, even inside an element, makes the parse fail |
| XmlElements.QuestionNeedsGap | plparse/xmllexer.c:476-481 | `<?name?>` without white space in front of the `?>` makes the parse fail |
| XmlElements.FailsIff | plparse/xmlparser.c:274-671 | The parse fails at a token if and only if its kind is not one with which the state goes on, or it is a close tag's name other than the innermost open one and the parse is not relaxed |
| XmlElements.FoldIsUpper | plparse/xmlparser.c:66-74 | Without regard to case, names are kept in capital letters |
| XmlExamples.ErrorBehindRoot | plparse/xmlparser.c:698-749 | `<a></a><`, for any name, returns -1 from the parser and still succeeds with that element |
| XmlRelaxed.WholeCommentsDoNotHang | plparse/idol-pl-parser.c:1660-1674 | If every `<!` of a text is a `<!--` or a `<![`, and every `<!--` starts a comment that ends without a `]]>` in it, the relaxed parse ends, wherever comments and CDATA sections stand |
| XmlRelaxed.RelaxedHangsIff | plparse/idol-pl-parser.c:1660-1674 | The relaxed parse of a text does not return if and only if, once comments are blanked, one of its tokens starts a comment or document type between tags and no later one ends it |
| XmlRelaxed.OpenCommentNeverEnds | plparse/idol-pl-parser.c:1660-1674 | The relaxed parse of `<!--` does not return |
| XmlElements.RelaxedIsRead | plparse/idol-pl-parser.c:1660-1674 | A written document without comments, parsed the handlers' way, is read as what it means with folded names and a text node for all text between two nodes |
| XmlPrinter.Printer.PrintNode | plparse/xmlparser.c:844-875 | The printing recursion writes the text of `DumpNode` |
| XmlPrinter.Printer.PrintProps | plparse/xmlparser.c:854-863 | The loop prints the properties with escaped values, each on a line of its own |
| XmlPrinter.NodeTextIsDump | plparse/xmlparser.c:844-882 | The printed text is the text the round trip lexes, for every printable tree, indentation and following text |
| XmlPrinter.PropsAreAligned | plparse/xmlparser.c:844-863 | Every property after the first is printed on a line of its own in the column of the first, with its value in single quotes |
| XmlPrinter.ChildIsIndented | plparse/xmlparser.c:844-875 | A child is printed on lines of its own, two columns further on than its node, between the node's tags |
| XmlRoundTripLexing.LexName | plparse/xmllexer.c:405-552 | A name in front of a character that ends it is one token if it is shorter than the buffer, and otherwise the call is the one behind as many of its characters as the buffer holds, with a buffer of twice the size |
| XmlRoundTripLexing.LexString | plparse/xmllexer.c:447-552 | The same for a quoted value, whose remainder is lexed without its opening quote |
| XmlRoundTrip.ParseUndoesDump | plparse/xmlparser.c:844-882 | Parsing what the printer writes for a tree (plain names, no text, values present) whose names and escaped values fit the buffer at their places gives back exactly that tree if its depth is at most 25, and fails otherwise |
| XmlRoundTrip.ShortTokensFit | plparse/xmllexer.c:536-552 | Names and escaped values of less than 64 KiB fit everywhere, whatever the indentation makes of the buffer |
| XmlRoundTripExact.TreeComesBackIff | plparse/xmlparser.c:844-882 | A tree in whose names nothing is escaped comes back from its printed text if and only if its depth is at most 25 and every name and escaped value is shorter than the buffer at its place |
| XmlOverflow.LostForGood | plparse/xmlparser.c:245-671 | A parse that has gathered less than the marks it has passed stand for, or something else, does not end with the tree, whatever it still reads from the printed text |
| XmlMarks.LexShape | plparse/xmllexer.c:164-595 | From any place in a printed text, the middle of a name or value included, a call takes one of eleven kinds of tokens, with the text and end that its kind says |
| XmlExamples.LongValueIsCut | plparse/xmllexer.c:536-552 | A value of 64 KiB to 192 KiB that looks like an identifier comes back without its first 64 KiB and with the quote behind it |
| XmlExamples.SeventyThousandLetters | plparse/xmllexer.c:536-552 | The printed element with a value of 70000 letters comes back with 4464 of them and a quote |
| XmlExamples.OverflowCanGoUnnoticed | plparse/xmllexer.c:536-552 | With a quote in the name of a tag, a value that fills the buffer exactly comes back from the close tag |
| XmlUnnoticed.HiddenOverflowComesBack | plparse/xmllexer.c:336-346 | The string that a double quote in a torn value opens fills the buffer again inside the close tag; if the rest of the name there decodes to the value, the tree comes back |
| XmlUnnoticed.HiddenBelowComesBack | plparse/xmllexer.c:447-456 | The same for the string that the quote behind a value opens and that ends two close tags further on, in that of the root |
| XmlUnnoticed.OnlyOrdinaryNamesAreExact | plparse/xmlparser.c:810-882 | For every character that a printable name can hold and that the escaper would not leave, there is a tree with it in a name that comes back although a value in it does not fit |
| XmlRoundTrip.ParseNode | plparse/xmlparser.c:245-671 | At any depth, reading the text of a node that fits adds exactly that node to the children and goes on behind it |
| XmlRoundTrip.ParseDeepNode | plparse/xmlparser.c:264-281 | Reading a printed node with one level too many fails, and leaves what was complete at the top level before |
| CommentBlanker.CleanedOnlyBlanks | plparse/idol-pl-parser.c:1636-1658 | The length stays, every character is kept or turned into a blank, and no `]]>` is lost |
| CommentBlanker.ChangesAreBlankedComments | plparse/idol-pl-parser.c:1651-1657 | Whatever changes lies in a comment without `]]>` that is blanked from `<!--` to its first `-->` |
| CommentBlanker.CleanedIsSettled | plparse/idol-pl-parser.c:1642-1657 | Between a `<!--` that is left and any later `-->` there is a `]]>` |
| CommentBlanker.CleanedIsIdempotent | plparse/idol-pl-parser.c:1636-1658 | Running it again changes nothing |
| CommentBlanker.RoundIsFirst | plparse/idol-pl-parser.c:1642-1655 | Each round of searches finds the first `<!--` with its first `-->` and skips it exactly when a `]]>` lies between |
| CommentBlanker.Search | plparse/idol-pl-parser.c:1642-1650 | The three searches from the needle find what one round is defined by, inside the text |
| CommentBlanker.CleanupXml | plparse/idol-pl-parser.c:1636-1658 | The in-place loop terminates and leaves exactly that text |
| Playlist.NumEntries | plparse/idol-pl-parser.c:903-941 | The size minus the ignored entries is the number of entries with a URI that is not ignored |
| PlsText.SplitOfJoin | plparse/idol-pl-parser-pls.c:179 | Splitting joined lines gives the lines and one empty string |
| PlsText.SplitPairOf | plparse/idol-pl-parser-pls.c:219 | A line is split at its first `=`, so a value may hold others |
| PlsText.ReadIniLineString | plparse/idol-pl-parser.c:1223-1270 | The loop over the lines returns the value of the first line whose key begins with the given one |
| PlsEntries.LinesAreWhole | plparse/idol-pl-parser-pls.c:179 | A text is cut into lines at every carriage return and line feed and nowhere else, and the lines with these characters between them are the text |
| PlsEntries.FirstLineDecides | plparse/idol-pl-parser.c:1223-1270 | The first line that begins with the key, behind tabs and blanks and in whatever letters, decides: its value is all that is behind its first `=`, and there is none without one |
| PlsEntries.IsPlsIff | plparse/idol-pl-parser-pls.c:186-196 | A text is handled if and only if its first line that is not blank begins with `[playlist]`, in whatever letters |
| PlsScan.ScanEndsIff | plparse/idol-pl-parser-pls.c:245-270 | The scan ends if and only if no line was counted or some key is `file` with a number the 32-bit counter prints |
| PlsScan.MeetsEachOnceIff | plparse/idol-pl-parser-pls.c:209-270 | The scan ends having met each counted line exactly once if and only if the counted keys are all different and numbered as the counter prints numbers, whatever holes there are |
| PlsScan.MetInOrder | plparse/idol-pl-parser-pls.c:246-270 | Within a pass keys are met in increasing order of their numbers, from 1 |
| PlsScan.CounterIsSigned | plparse/idol-pl-parser-pls.c:246-250 | The keys that are looked up have the numbers from 1 to 2147483647, then those from -2147483648 to -1, then 0, and again |
| PlsParser.LoadIsCounted | plparse/idol-pl-parser-pls.c:209-234 | The counted keys are in the table and are the only ones there that begin with `file` |
| PlsParser.LoadTable | plparse/idol-pl-parser-pls.c:209-234 | The loop fills the table and counts as the specification says |
| PlsEntries.TableHasLastLines | plparse/idol-pl-parser-pls.c:209-234 | The table has exactly the keys that some line names (without white space in front, in small letters; lines that start with `#` or `[` name none), each with the value of the last such line |
| PlsEntries.TriedThenAdded | plparse/idol-pl-parser-pls.c:254-315 | A key that is met is tried as a playlist if and only if its length is not given or not negative, with the name as it stands or the base it is resolved against, without `fallback` in recursive mode; its entry is added if and only if it was not tried or the try failed; `fallback` is kept and the world is what the try leaves |
| PlsEntries.EntryHasItsFields | plparse/idol-pl-parser-pls.c:278-312 | The entry of a number has the title, genre and duration that the table has under that number and that can be converted, its base, and its name as URL if that has a scheme or starts at the root directory; and no other fields |
| PlsParser.EachKeyIsSettledOnce | plparse/idol-pl-parser-pls.c:268-315 | Every key that is met gives, in order, exactly one successful nested parse of its file (only for a length that is not negative, and without `fallback` in recursive mode) or one added entry with its fields; `fallback` is restored whatever nested parses do to it |
| PlsParser.NumberedLinesAreSettledOnce | plparse/idol-pl-parser-pls.c:161-327 | With different, numbered keys the whole parse succeeds and every entry line gives exactly one such outcome |
| PlsParser.ParseEndsIff | plparse/idol-pl-parser-pls.c:161-327 | A playlist is parsed to the end if and only if the scan's condition holds of its lines |
| PlsExamples.FilexNeverEnds | plparse/idol-pl-parser-pls.c:245-270 | The playlist with the one line `filex=a` is not parsed to the end by any number of iterations |
| PlsExamples.EqualKeysAreMetTwice | plparse/idol-pl-parser-pls.c:245-270 | Two lines with the same numbered key: the scan ends, having met that key twice |
| PlsExamples.File1IsMetTwice | plparse/idol-pl-parser-pls.c:245-270 | Such a playlist: two lines `file1=a` and `file1=b` |
| PlsParser.Parser.HandleKey | plparse/idol-pl-parser-pls.c:268-315 | The loop body, with `fallback` saved, cleared and restored around a nested parse that may change it, has the effect of `Handle` |
| PlsParser.Parser.Scan | plparse/idol-pl-parser-pls.c:245-315 | Any number of iterations of the scan handles the keys of `Hits` in order and says whether the loop has ended |
| PlsParser.Parser.AddPls | plparse/idol-pl-parser-pls.c:161-327 | The whole parse gives the result, steps and state of `Parse` and leaves `fallback` as it was |
| PlsRoundTrip.SavePls | plparse/idol-pl-parser-pls.c:39-138 | The writer's loop writes the header and the numbered lines of the entries with a URI that is not ignored |
| PlsRoundTrip.WriteHeader | plparse/idol-pl-parser-pls.c:58-77 | The lines in front of the entries, with the playlist title if there is one |
| PlsRoundTrip.WriteEntry | plparse/idol-pl-parser-pls.c:107-135 | The one or two lines of an entry with its number |
| PlsEntries.SavedIsText | plparse/idol-pl-parser-pls.c:39-138 | The file written is, character by character, `[playlist]`, the title line if there is a title, the number of entries with a URI that is not ignored, and their numbered `File` and `Title` lines in order |
| PlsRoundTrip.SavedCounts | plparse/idol-pl-parser-pls.c:70-130 | `NumberOfEntries` equals the number of `File` lines; these are numbered from 1 without holes and carry locations and titles in order |
| PlsRoundTrip.SavedIsReadBack | plparse/idol-pl-parser-pls.c:39-327 | Parsing a saved playlist announces its title and then signals every written entry once, in order, with its location and title, when locations hold no line breaks and are not file names and nested parses do not succeed |
| PlsRoundTrip.UriAndTitleSurvive | plparse/idol-pl-parser.c:1391-1416 | A URI that is not made relative comes back as it was, and a UTF-8 title if and only if it is not empty and does not end in white space |
| PlsRoundTrip.EntriesComeBackIff | plparse/idol-pl-parser-pls.c:39-327 | The entries read are exactly the entries written (URI and title, in order) if and only if every title is absent, or not empty and without trailing white space; for URIs that are not made relative and UTF-8 titles |
| Utf16.DecodeOfEncode | plparse/idol-pl-parser-pla.c:132-137 | Decoding UTF-16 undoes encoding, in front of any other units |
| Utf16.DecodeOfEncodeUtf8 | plparse/idol-pl-parser-pla.c:216-220 | Decoding strict UTF-8 undoes encoding |
| Utf16.BytesAndUnits | plparse/idol-pl-parser-pla.c:126-131 | UTF-8 takes at least as many bytes as UTF-16 takes units, and equally many only for ASCII |
| Pla.RecordIsReadBackIff | plparse/idol-pl-parser-pla.c:113-150 | A record gives its file name back if and only if the name has at most 255 UTF-16 units and no backslash |
| Pla.OffsetIsBaseNameIff | plparse/idol-pl-parser-pla.c:113-131 | A name that is text has a record, and the offset stored in it is the one-based position of the base name if and only if what is before it is ASCII |
| Pla.PathIsTextBeforeNul | plparse/idol-pl-parser-pla.c:216-231 | The name read from any record that is UTF-16 is its text up to the first NUL unit, whole, in UTF-8 and with slashes |
| PlaBytes.HeaderBytes | plparse/idol-pl-parser-pla.c:66-74 | The header's bytes: the count with its highest byte first, the characters of `iriver UMS PLA` at 4, up to 64 bytes of title at 32, zeros elsewhere |
| PlaBytes.RecordBytes | plparse/idol-pl-parser-pla.c:128-146 | In the record of an ASCII name each character takes a zero byte and its own, slashes as backslashes, and zeros fill the rest |
| PlaBytes.OffsetBytes | plparse/idol-pl-parser-pla.c:111-127 | The first two bytes of a record, highest first, say where the part of the name behind its last slash starts, counted from 1; a name without a slash starts at 1 |
| PlaBytes.SurrogatePairs | plparse/idol-pl-parser-pla.c:132 | Characters beyond 16 bits become a high and a low half as section 2.1 of RFC 2781 says, with the example of its section 5 |
| PlaBytes.ReadFailsIff | plparse/idol-pl-parser-pla.c:182-243 | Reading ends without an error if and only if the file has a header with the format's name and a NUL behind it and every record that counts has a URI |
| PlaBytes.RecordsAreRead | plparse/idol-pl-parser-pla.c:207-250 | The entries signalled are those of the first records, up to the count, the end of the file or the first record without a URI |
| Pla.FillRecord | plparse/idol-pl-parser-pla.c:101-151 | Clearing and refilling the one buffer leaves exactly the 512 bytes of the record |
| Pla.FillHeader | plparse/idol-pl-parser-pla.c:66-74 | The header record holds the count, the format name and at most 64 bytes of title, and zeros |
| Pla.SavePla | plparse/idol-pl-parser-pla.c:47-165 | The writer writes the header and the records of the entries with a URI, up to the first that cannot be converted, and says whether there was one |
| Pla.AddPla | plparse/idol-pl-parser-pla.c:167-256 | The reader's loop over `offset` and `entry` signals what `Read` says, and ends with an error at the first record that cannot be converted |
| Pla.SavedIsReadBack | plparse/idol-pl-parser-pla.c:64-256 | Reading a written file gives exactly the URIs of the entries that have one, in order, although the header counts all entries, between the announcements of the title's first 64 bytes |
| Pla.SavedIsReadBackIff | plparse/idol-pl-parser-pla.c:64-256 | The writer succeeds and its file is read as exactly those URIs, in order, if and only if each URI comes back from its own record, whatever the conversions do |
| Pla.SavedComesBackIff | plparse/idol-pl-parser-pla.c:64-256 | For conversions that undo each other, without two file names for one URI, that is so if and only if every file name is text of at most 255 UTF-16 units without a backslash |
| ParseGuard.DepthIsBounded | plparse/idol-pl-parser.c:1763-1764 | Over any playlists, cyclic ones included, at most five handlers are nested; every call ends if every handler asks for a bounded number of files |
| ParseGuard.SelfReferenceFillsTheRoom | plparse/idol-pl-parser.c:1763-1764 | A playlist that names itself reaches that bound |
| ParseGuard.NoRecursionNoDepth | plparse/idol-pl-parser.c:1794-1795 | Without recursion at most the first file is handled |
| ParseGuard.LevelCountsUnsafeReturns | plparse/idol-pl-parser.c:1875-1949 | The level on exit is the level on entry plus the number of unsafe files refused inside: never below, and equal if and only if there were none |
| ParseGuard.LevelIsRestored | plparse/idol-pl-parser.c:1875-1949 | With unsafe types allowed the level always comes back |
| ParseGuard.RefusedAsTooDeepIff | plparse/idol-pl-parser.c:1881-1885 | A file asked for by a handler is refused as too deep if and only if the handler's level and the unsafe files refused before it in that handler add up to four or more |
| ParseGuard.TooDeepBehindUnsafeFilesIff | plparse/idol-pl-parser.c:1751-1885 | The same in terms of the files: behind files that are decided without a handler the next one is refused as too deep, whatever it is, if and only if the level and the number of unsafe files among them add up to four or more |
| ParseGuard.UnsafeFilesHideLaterOnes | plparse/idol-pl-parser.c:1881-1885 | Four unsafe files in front of a playlist make it an error, where it would be handled without them |
| GuardResults.HandledAndRefusedIff | plparse/idol-pl-parser.c:1763-1931 | A handler runs, and the return for unsafe types is taken, for exactly the files that come to be classified and whose type says so |
| GuardResults.ResultIff | plparse/idol-pl-parser.c:1751-1969 | When a call is a success, an error, ignored, unhandled or cancelled, each if and only if, over the file, its type, the modes, `fallback` and what the handler left: an empty file is a success, an ignored type goes before `fallback`, and `fallback` makes a success of any other failure |
| GuardResults.CallsAreAskedFor | plparse/idol-pl-parser.c:1893-1949 | The calls inside a handled call are those that its handler asks for, each after the results of the ones before it, at the level they left and with the `fallback` it sets, until it asks for no more |
| ParseGuard.ParseData.ParseInternal | plparse/idol-pl-parser.c:1751-1969 | The code, with `recurse_level` and `fallback` as fields, has the result and exit level of `Parse`, which keeps what a failed video site left in `ret`, and restores `fallback` |
| ParseGuard.ParseData.Func | plparse/idol-pl-parser.c:1893-1949 | A handler that asks for files by the results so far makes the calls that `Handle` lists |
| Smil.WalkEmitsReached | plparse/idol-pl-parser-smil.c:79-159 | Every media node with a `src` that the walk reaches is emitted exactly once, with the `src` of the last `textstream` sibling between it and the next media sibling |
| Smil.EntryComesAfterNested | plparse/idol-pl-parser-smil.c:102-147 | An entry is emitted after all that is nested between its node and the next media sibling, and before that sibling's |
| SmilNames.KindsByName | plparse/idol-pl-parser-smil.c:106-138 | Media nodes are those named `video`, `audio` or `media`, subtitles come from `textstream` and bodies are named `body`, in whatever letters |
| SmilNames.SiblingsAreListed | plparse/idol-pl-parser-smil.c:102-157 | Siblings of these names that have a `src` give one entry each, in their order, with `src`, author, duration, start, abstract and copyright from their first properties of these names and their own title or else the parent's; siblings of other names give none of their own |
| SmilNames.SubtitleIsLast | plparse/idol-pl-parser-smil.c:138-139 | The subtitle is the `src` of the last `textstream` in front of the next media sibling |
| SmilNames.HeadTitleIsFirst | plparse/idol-pl-parser-smil.c:161-182 | The title of a head is the `content` of its first `meta` node that is named `title` and has one |
| SmilNames.EntriesAreThoseOfBodies | plparse/idol-pl-parser-smil.c:184-209 | A document gives the entries of all its `body` nodes, each with the first title found in a `head` in front of it |
| Smil.Parser.ParseSmilEntry | plparse/idol-pl-parser-smil.c:79-159 | The loop with its waiting entry emits that, and succeeds exactly when there is an entry or any other node |
| Smil.Parser.ParseSmilEntries | plparse/idol-pl-parser-smil.c:184-209 | All bodies are walked, with the title of the first head that has one and stands before them; the result is success if and only if there is a body |
| Smil.Parser.AddSmilWithDoc | plparse/idol-pl-parser-smil.c:211-226 | A document whose root is not `smil` is an error and emits nothing |

## Left out

- XmlLexerCode.Lexer.GetToken: memory for the larger buffer is always found; and what the C code stores behind the buffer, exactly when `XmlLexer.LeavesBufferIff` says, goes into eight bytes that the model's buffer has there and nothing else uses
- XmlBuilder.GetNode: the text of a CDATA section is what was collected for it, without the bytes that the start mark and earlier tokens left behind it in the buffer, which the C code does not cut off; the two are the same exactly when `XmlSections.SectionTextIff` says so
- XmlElements.TextIsRead: for texts with CDATA sections this is said of the collected text too, so of the C code where `XmlSections.SectionTextIff` holds of each section
- XmlRoundTripExact.TreeComesBackIff: for names with a quote, an ampersand or a control character only the sufficient direction holds (`XmlRoundTrip.ParseUndoesDump`); the other one is false with each such character (`XmlUnnoticed.OnlyOrdinaryNamesAreExact`), and which of those trees come back is not characterised
- XmlDocuments.ReadItems: for documents whose tokens all fit the 64 KiB buffer, with the collected text of CDATA sections, and whose comments and document types hold words, white space and quoted strings
- XmlRoundTrip.ParseUndoesDump: does not hold with the flag for multiple text nodes, where the printer's line breaks become text nodes; and the printer writes no text data, so trees with data are not printable
- PlsRoundTrip.SavedIsReadBack: stated for fewer than 2^31 written entries, since the writer's counter is an `int`
- Pla.SavedComesBackIff: that file names and URIs are turned into each other is assumed of the two conversion functions, which are GLib's; `Pla.SavedIsReadBackIff` does without
- PlsParser.ParseEndsIff: the loop is modelled by any number of its iterations, and not ending as no number of them being enough
- ParseGuard.DepthIsBounded: a handler is taken to return after at most `limit` requests; one that never does, like the PLS parser on `PlsExamples.FilexNeverEnds`, is not covered
- Files, GIO, GObject signals and threads: a file is its contents, signals are a sequence of steps or events, and write errors do not occur
- Making URIs relative, resolving them, character-set conversion and `ensure_utf8_valid`: parameters of the model
- `idol_pl_parser_parse_duration`: a chain of scan formats; PLS only asks whether its result is negative, and it is a parameter there
- `lex_convert` and byte-order marks, and the second parse after a change of encoding in `idol_pl_parser_parse_xml_relaxed`
- `strtol` is that of a 64-bit `long`
- The freeing of trees
- MIME types, schemes and video sites: what they make of a file is a parameter of the guard
- `plparse/idol-pl-playlist.c`: playlists are sequences of entries with an optional URI and title
- A PLA title must be given; files of 4 GiB and more, where the reader's 32-bit offset would wrap, are read as if it did not
- RSS, Atom, OPML, ASX, XSPF, RAM, M3U and desktop files: long chains of name comparisons that would add only easy members

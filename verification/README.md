# A verified model of Mini-XML as bundled in dev/src/pubfun/xml

This project models the Mini-XML library that the middleware carries in `dev/src/pubfun/xml`, in the
variant that its Makefile builds (`mxml-file.c`, lines 13-22 of the Makefile), together with the UTF-8
variant of its character input and output (`mxml-file-utf8.c`). It proves what the library is for: that a
tree survives being printed and parsed, that the linked tree stays sound under every change, that walking,
searching and indexing agree with their simple definitions, and that the character codecs are inverse to
each other.

`dafny verify dfyconfig.toml` checks everything.

## How the model is laid out

Code that works step by step is modelled step by step. Nodes are objects of the class `Forests.Node` with the
five pointers of `mxml_node_t`; buffers, sources, file descriptors, the loader and the index are classes with
the fields of the C code, and their loops are loops. Each method is proved against a pure description:

- `Reader` and `Writer` say what the parser and the printer compute, as functions on strings and on tree
  values (`Trees.Tree`). `Canonical` says which trees survive; `TagProofs`, `RunProofs`, `RoundTrip` and
  `RootProofs` prove that they do, and `FinalTree`, `TagExact` and `Exact` that no others do. `Loaded` says what
  every loaded tree is like. `Nesting` relates the parser to a matcher of tags that builds nothing.
- `Numerals`, `References`, `Spellings`, `TagForms`, `MarkupForms` and `Documents` describe what an author may
  write, from single characters to whole documents, apart from the parser, and prove how it is read; `Respelling`
  joins that with the round trip. `Layout` describes saved text by its lines and columns, apart from the printer.
- `Buffers`, `Scanning`, `Building` and `Loading` are the loader in place, `Printing` and `Saving` the printer;
  `TreeValues` says which tree value a node stands for. `Copying` joins the two ends.
- `Forests`, `ForestOrder` and `ForestOps` describe the pointers as a forest: lists of children, parents, and a
  height that rules out cycles. Every method on nodes takes the forest as a ghost argument and returns the new
  one. `Nodes`, `Moves`, `Deletion`, `Search` and `Finding` are `mxml-node.c` and `mxml-search.c`;
  `Attributes` is `mxml-attr.c`; `Sorting`, `IndexSearch`, `ValueSearch`, `Indexes`, `IndexBuild` and
  `IndexRuns` are `mxml-index.c`; `EntityTable`, `Entities` and `EntityCodes` are `mxml-entity.c`.
- `Encodings` says what `mxml-file-utf8.c` reads and writes, on bit-vectors; `EncodingProofs` and `Utf16Proofs`
  relate the two directions; `FileInput` and `FileOutput` are the buffered versions.

A canonical tree, in short: its root is an element without siblings; names hold no whitespace and none of the
characters that the grammar uses at their place; attribute names are unique and not empty, and have values; no string holds a NUL or a forbidden control character; values have the type that the load
callback gives for their element; texts hold no whitespace, a text behind a text has its whitespace flag set, an
empty text has its flag set and no text follows it; opaque strings are not empty and not adjacent; integers are
32-bit. `Canonical.CanonicalRoot` is the exact statement, for each load callback.

Where the code and its own description differ, the model follows the code:

- the value-only search of an index is documented without restriction, but can miss nodes
  (`ValueSearch.ValueSearchCanMiss`), and works exactly under the condition of `ValueSearch.ValueSearchExact`;
- the UTF-16 readers refuse the low surrogate 0xDFFF, which section 2.1 of RFC 2781 allows
  (`Utf16Proofs.RefusedCharacter`), and accept a low surrogate on its own (`Utf16Proofs.LoneLowSurrogate`);
  `Utf16Proofs.DecodesIffUtf16` and `Utf16Proofs.AcceptsBeyondUtf16` say exactly what they accept;
- the UTF-16 string reader stops at a big-endian character whose first byte is zero
  (`Utf16Proofs.StringUtf16Exact`);
- an attribute name in quotes is parsed but never accepted (`Reader.QuotedNameFails`);
- the parser accepts an element that is still open at the end of the input (`RootProofs.UnclosedLoads`), and a
  tag that the end cuts off (`RootProofs.CutTagLoads`);
- a control character that XML forbids ends a name, a value or the document without an error of its own
  (`MarkupForms.ValueCut`, `MarkupForms.ControlEnds`, `MarkupForms.DeclarationCut`), and an empty comment does not
  end (`MarkupForms.EmptyCommentGoesOn`);
- a reference to a character with bit 7 set is stored as one byte (`References.StoredAs`), and what follows the
  digits of a numeric reference is skipped (`References.DecimalReference`);
- two branches of `mxmlAdd` that handle a missing neighbour are never reached: the test before them already
  deals with the first and the last child.

## Model

| member | source | states |
|---|---|---|
| RootProofs.SaveThenLoad | dev/src/pubfun/xml/mxml-file.c:1478-3091 | Round trip: every canonical tree, saved without whitespace callback under any wrap margin and loaded again, comes back equal in names, attribute order and values, text, whitespace flags and child order. One statement for text, opaque, integer and ignored values, mixed element by element as the load callback says, and for comments, CDATA sections, processing instructions and declarations |
| Exact.SaveLoadExact | dev/src/pubfun/xml/mxml-file.c:1478-3091 | Exactly which trees survive, for every tree, wrap margin and load callback: an element is reproduced by saving it and loading the text back, with no other node left in memory, if and only if it is canonical |
| Loaded.LoadedCanonical | dev/src/pubfun/xml/mxml-file.c:1478-2101 | Exactly which loaded trees are canonical, for every byte string and load callback: those whose names and text strings are plain one by one and whose root fits; everything else that canonical asks for holds of every loaded tree |
| Loaded.LoadRegular | dev/src/pubfun/xml/mxml-file.c:1478-2101 | What holds of every tree that is loaded from bytes: no NUL or forbidden control character in any name or value, unique attribute names with values, values of the type that the callback gives for their element, texts and opaque strings separated, integers of 32 bits |
| Loaded.LoadSaveLoad | dev/src/pubfun/xml/mxml-file.c:223-297 | A loaded tree that is plain comes back equal when it is saved and loaded again |
| FinalTree.RunPartial | dev/src/pubfun/xml/mxml-file.c:1532-2101 | On the way to its result the parser only ever adds behind: in every state each open element is a part of the tree that the run ends with, and its children so far are its first children there |
| TagExact.OpenExact | dev/src/pubfun/xml/mxml-file.c:1980-2043 | Converse for open tags: a written tag that is read back with the same name and attributes has a name and attribute names that can be written |
| TagExact.MarkupExact | dev/src/pubfun/xml/mxml-file.c:1682-1938 | Converse for markup: a comment, CDATA section, processing instruction or declaration that is read back whole ends where its name ends and no earlier |
| RootProofs.SaveInjective | dev/src/pubfun/xml/mxml-file.c:2774-3091 | Two canonical trees with the same saved text are the same tree |
| RootProofs.SaveWithSpacesThenLoad | dev/src/pubfun/xml/mxml-file.c:3098-3130 | Any callback that returns only whitespace (none before the root) keeps the meaning, whatever it makes of the element, the elements around it and the siblings on both sides: after loading, the tree is the saved one up to empty texts and whitespace flags, so no two words merge and none is split although separators are skipped at column 0 |
| RootProofs.SaveIndentedThenLoad | dev/src/pubfun/xml/mxml-file.c:3132-3170 | The same for the indentation that the library itself supplies |
| Layout.IndentedLines | dev/src/pubfun/xml/mxml-file.c:3132-3170 | What an indented document looks like: the lines of its elements and a newline behind each; one line for an open tag, a close tag or an element without child elements; two spaces for each level below the children of the root, 29 times at most. For documents without mixed content |
| Layout.IndentationAt | dev/src/pubfun/xml/mxml-file.c:3132-3170 | What the indentation is at any place of any document, mixed content included: the first element among its siblings starts a new line, every element ends one, and close tags are indented if the element holds elements |
| Layout.SavedAsLaid | dev/src/pubfun/xml/mxml-file.c:2774-3130 | Every saved document under every whitespace callback: where its lines break, counted on the text itself. An attribute that would go past the margin and a value where the line is past it start a new line, nothing else does; an entity counts for one column, a tab goes to the next multiple of eight; and the callback is asked about each element at its place in the document |
| TagProofs.NameLook | dev/src/pubfun/xml/mxml-file.c:2700-2770 | How a name is written: up to its second quote if it starts with one, as it is otherwise |
| Copying.SaveAndLoad | dev/src/pubfun/xml/mxml-file.c:223-297 | On the nodes: saving a canonical tree of linked nodes to an allocated string and loading that string builds fresh, consistently linked nodes for the same tree (with indentation: up to whitespace) |
| Copying.TextIsWhole | dev/src/pubfun/xml/mxml-file.c:277-283 | The text of a canonical tree is not empty and holds no NUL, so `strdup` and the string reader see all of it |
| Numbers.DecimalRoundTrip | dev/src/pubfun/xml/mxml-file.c:2942-2963 | `strtol` with base 0 gives back every 32-bit integer that `%d` printed and consumes the whole numeral |
| Nesting.LoadsIffBalanced | dev/src/pubfun/xml/mxml-file.c:1939-2101 | Exactly which inputs load, for every load callback: up to a malformed integer, if there is one, every close tag names the innermost open element, at most one element is left open, and there is a tag or a word that whitespace follows. The matcher knows nothing of nodes, value types and parents |
| Nesting.RunAgrees | dev/src/pubfun/xml/mxml-file.c:1939-2034 | From every parse state on, for every rest of the input and every load callback: the parser fails exactly where a tag or the matching of the tags fails, and otherwise ends with exactly the elements open that the matching leaves open |
| Nesting.NoCut | dev/src/pubfun/xml/mxml-file.c:1586-1597 | A callback that never asks for integers never ends a load early, so that the whole input has to be balanced |
| RootProofs.UnclosedLoads | dev/src/pubfun/xml/mxml-file.c:2079-2101 | An element that is still open at the end of the input is returned as if it were closed |
| RootProofs.TwoUnclosedFail | dev/src/pubfun/xml/mxml-file.c:2083-2096 | Two such elements make the load fail |
| RootProofs.CutTagLoads | dev/src/pubfun/xml/mxml-file.c:2021-2022 | A tag that the end of the input cuts off behind its name is taken for a whole element |
| Reader.QuotedNameFails | dev/src/pubfun/xml/mxml-file.c:2211-2330 | An attribute name in quotes is never accepted: its closing quote is taken for what follows the name, and that would have to be an equals sign |
| Respelling.RespelledLoads | dev/src/pubfun/xml/mxml-file.c:1478-2382 | Every respelling of a saved document loads as the tree that was saved: with any character of a name, value or word written as itself, as a decimal or hexadecimal number or as a named entity, with values in single quotes, in double quotes or in none, with other whitespace around every part of a tag, and with anything behind the names of its close tags. The saved text itself is one of these spellings |
| Documents.SpellingDoesNotMatter | dev/src/pubfun/xml/mxml-file.c:1478-2382 | Any two spellings of the same words, blanks, tags and markup load alike, to the same tree or both to a failure, for every load callback |
| Documents.FirstOrOpen | dev/src/pubfun/xml/mxml-file.c:2079-2101 | Of two nodes at the top the first is the result, unless the second is left open: a comment before an element, in any form |
| References.ReferenceRead | dev/src/pubfun/xml/mxml-file.c:1417-1471 | Every character that fits an `int` and is not forbidden is what its decimal and its hexadecimal reference stand for, in both letter cases and with leading zeros, and what any name stands for that the entity callbacks know |
| References.DecimalReference | dev/src/pubfun/xml/mxml-file.c:1452-1458 | For every number, however large: a decimal reference stands for the number, limited to a `long` and cut to an `int`, or is an error if that is no acceptable character; what follows the digits is skipped, and leading zeros do not make it octal |
| References.HexReference | dev/src/pubfun/xml/mxml-file.c:1452-1458 | The same for hexadecimal references |
| References.NoNumber | dev/src/pubfun/xml/mxml-file.c:1452-1468 | A numeric reference without a digit is an error, one with an upper-case X included |
| References.Closed | dev/src/pubfun/xml/mxml-file.c:1431-1470 | A name of at most 63 characters that a semicolon closes is resolved, and is an error exactly if the character is not acceptable |
| References.NotClosed | dev/src/pubfun/xml/mxml-file.c:1431-1450 | A reference that no semicolon closes within 64 characters is an error |
| References.StoredAs | dev/src/pubfun/xml/mxml-file.c:641-714 | Which bytes stand for a character in the tree: its UTF-8 bytes (section 3 of RFC 3629), unless bit 7 of it is set; then its lowest byte alone |
| EntityCodes.NamesStandFor | dev/src/pubfun/xml/mxml-entity.c:161-424 | The 96 names of the upper half of ISO 8859-1, in the order of their codes, stand for these codes |
| Spellings.QuotedPieces | dev/src/pubfun/xml/mxml-file.c:2276-2299 | A value in quotes of either kind is read as what its pieces mean, up to the quote that it began with; the other quote is a character of it |
| Spellings.UnquotedPieces | dev/src/pubfun/xml/mxml-file.c:2306-2322 | A value without quotes, up to whitespace, an equals sign, a slash or a greater-than sign |
| Spellings.TextPieces | dev/src/pubfun/xml/mxml-file.c:2046-2066 | The text between tags is what its pieces mean; outside opaque values a written blank separates, but a blank that is referred to is part of the value |
| TagForms.TagFormRead | dev/src/pubfun/xml/mxml-file.c:1980-2043 | A tag in any form is read as its name and its attributes, in order, and opens an element or adds one without children: quotes of either kind or none, whitespace around the equals sign and every attribute, and the ends `>`, `/>` and `?>` |
| TagForms.ParseForm | dev/src/pubfun/xml/mxml-file.c:2162-2361 | One attribute in any form becomes the next attribute of the tag |
| TagForms.EqualsEndsValue | dev/src/pubfun/xml/mxml-file.c:2309-2311 | An equals sign ends a value without quotes, and is dropped |
| TagForms.CloseFormRead | dev/src/pubfun/xml/mxml-file.c:1939-1979 | A close tag in any form, with anything behind its name, ends the innermost element if it has that name, and is an error otherwise |
| MarkupForms.CommentRead | dev/src/pubfun/xml/mxml-file.c:1682-1739 | A comment that is not empty, holds no "--" and does not end in a dash is read whole and becomes an element that is never a parent |
| MarkupForms.EmptyCommentGoesOn | dev/src/pubfun/xml/mxml-file.c:1688-1695 | An empty comment does not end where it seems to: its end becomes part of a longer one |
| MarkupForms.DashesGoOn | dev/src/pubfun/xml/mxml-file.c:1690-1691 | Nor does a greater-than sign right behind the start of a comment or behind three dashes end it |
| MarkupForms.CDataRead | dev/src/pubfun/xml/mxml-file.c:1740-1796 | A CDATA section without "]]>" is read whole |
| MarkupForms.InstructionRead | dev/src/pubfun/xml/mxml-file.c:1797-1863 | A processing instruction without "?>" is read whole, and holds the document if it stands at the top |
| MarkupForms.DeclarationRead | dev/src/pubfun/xml/mxml-file.c:1864-1938 | A declaration is read up to its greater-than sign, with references decoded behind its first word |
| MarkupForms.EqualsMissing | dev/src/pubfun/xml/mxml-file.c:2253-2336 | An attribute name that no equals sign follows, behind whitespace or at once, makes the load fail |
| MarkupForms.DuplicateRefused | dev/src/pubfun/xml/mxml-file.c:2255-2256 | So does a second attribute of the same name |
| MarkupForms.TagEndRefused | dev/src/pubfun/xml/mxml-file.c:2179-2200 | So do a slash or question mark in a tag without a greater-than sign behind it, a less-than sign, and a tag that does not end |
| MarkupForms.NestedTagRefused | dev/src/pubfun/xml/mxml-file.c:1660-1664 | So does a less-than sign in the name of a tag |
| MarkupForms.BadReferenceFails | dev/src/pubfun/xml/mxml-file.c:2046-2053 | So does a bad reference in the text |
| MarkupForms.ReferenceGoesOn | dev/src/pubfun/xml/mxml-file.c:1665-1672 | A reference never ends the name of a tag, even if it completes the start of a comment |
| MarkupForms.ControlEnds | dev/src/pubfun/xml/mxml-file.c:2389-2424 | Outside tags a NUL or a forbidden control character ends the document |
| MarkupForms.ValueCut | dev/src/pubfun/xml/mxml-file.c:2285-2329 | A value that a control character cuts off counts, and the tag goes on behind it; at the end of the input the load fails |
| MarkupForms.TagCut | dev/src/pubfun/xml/mxml-file.c:2021-2022 | A tag that is cut off behind its name, by the end of the input or a control character, is a whole element, and the last one |
| MarkupForms.CloseCut | dev/src/pubfun/xml/mxml-file.c:1960-1961 | A close tag that is cut off closes its element |
| MarkupForms.DeclarationCut | dev/src/pubfun/xml/mxml-file.c:1870-1884 | A control character behind the first word of a declaration is stored as the byte 255, and the declaration goes on |
| MarkupForms.ValueEnds | dev/src/pubfun/xml/mxml-file.c:1534-1645 | What ends a value of each type, and the node that is made of it |
| MarkupForms.BlankRead | dev/src/pubfun/xml/mxml-file.c:1534-1645 | What whitespace without a value before it means to each type of value |
| MarkupForms.IntegerEnds | dev/src/pubfun/xml/mxml-file.c:1546-1595 | An integer value in any base that `strtol` knows, with sign and leading blanks, is read as its number; anything behind it ends the load with the node added |
| Numerals.ReadsAnyBase | dev/src/pubfun/xml/mxml-file.c:1547 | `strtol` with base 0 reads decimal, octal and hexadecimal numerals, with blanks and a sign before them, limits them to a `long`, and stops behind the last digit |
| Loading.LoadString | dev/src/pubfun/xml/mxml-file.c:223-233 | The loader over real nodes returns null exactly when the parse fails; otherwise a node without parent in a well-formed, consistently linked forest, whose tree is the one the parse defines. Without a result exactly the tree of the first node is freed |
| Loading.Loader.Turn | dev/src/pubfun/xml/mxml-file.c:1532-2067 | One turn of the main loop does what the parse defines for that character, to the nodes, the value type, the whitespace flag and the buffer |
| Loading.Loader.FlushValue | dev/src/pubfun/xml/mxml-file.c:1534-1645 | Value nodes: when the buffer becomes a node, what type and whitespace flag it gets, and when a lone space becomes an empty text node |
| Loading.Loader.AddValueNode | dev/src/pubfun/xml/mxml-file.c:1544-1599 | The node made for each value type; an integer that does not end where the buffer ends leaves the loop |
| Loading.Loader.ReadTag | dev/src/pubfun/xml/mxml-file.c:1649-2043 | The kind of a tag is decided by its collected name |
| Loading.Loader.ReadMarkupNode | dev/src/pubfun/xml/mxml-file.c:1682-1863 | Comments and CDATA sections become childless elements; a processing instruction at the top stays open |
| Loading.Loader.ReadDeclarationNode | dev/src/pubfun/xml/mxml-file.c:1864-1938 | The same for declarations, whose entities are decoded |
| Loading.Loader.CloseElement | dev/src/pubfun/xml/mxml-file.c:1939-1979 | A close tag must name the innermost open element; it is finished and the element around it becomes the parent |
| Loading.Loader.OpenElement | dev/src/pubfun/xml/mxml-file.c:1980-2043 | An open tag, its attributes, and whether it descends |
| Loading.Loader.ReadTagEnd | dev/src/pubfun/xml/mxml-file.c:1998-2013 | What follows the name: attributes, or the end of a tag without content; where a slash has no `>` behind it, the node is deleted again |
| Loading.Loader.DeletePending | dev/src/pubfun/xml/mxml-file.c:2009-2011 | That deletion leaves exactly the nodes that were there before the tag, consistently linked |
| Loading.Loader.End | dev/src/pubfun/xml/mxml-file.c:2079-2101 | What the load returns: the only open element, or the first node, or nothing |
| Building.AddShape | dev/src/pubfun/xml/mxml-file.c:1544-1566 | A node added below the innermost open element extends exactly that element in the parse state, and no finished tree changes |
| Building.PushShape | dev/src/pubfun/xml/mxml-file.c:1986-2034 | A new element becomes the innermost open one |
| Building.PopShape | dev/src/pubfun/xml/mxml-file.c:1963-1978 | The innermost element becomes a finished child of the one around it |
| Scanning.Source.GetChar | dev/src/pubfun/xml/mxml-file.c:2389-2424 | The next byte; a forbidden control character reads as end of file but is consumed, the terminating NUL is not |
| Scanning.GetEntityFrom | dev/src/pubfun/xml/mxml-file.c:1417-1471 | Entity names of at most 63 characters, numeric entities in decimal and hexadecimal, named ones through the callbacks; values that are forbidden characters are errors |
| Scanning.ScanElement | dev/src/pubfun/xml/mxml-file.c:2121-2382 | Parsing the attributes of a tag sets them in the node in order, refuses duplicates, and returns what ended the tag |
| Scanning.ScanAttr | dev/src/pubfun/xml/mxml-file.c:2208-2330 | One attribute: name, optional whitespace, `=`, optional whitespace, value |
| Scanning.ScanQuotedName | dev/src/pubfun/xml/mxml-file.c:2211-2230 | A name in quotes: its text up to and including the closing quote, and where reading it ends |
| Scanning.ScanAttrName | dev/src/pubfun/xml/mxml-file.c:2238-2250 | An unquoted name, with entities decoded |
| Scanning.ScanValue | dev/src/pubfun/xml/mxml-file.c:2261-2323 | A value in quotes of either kind, or without quotes, behind optional whitespace |
| Scanning.ScanQuoted | dev/src/pubfun/xml/mxml-file.c:2285-2296 | A quoted value, with entities decoded; it may end at end of file |
| Scanning.ScanUnquoted | dev/src/pubfun/xml/mxml-file.c:2309-2320 | An unquoted value |
| Scanning.SkipSpace | dev/src/pubfun/xml/mxml-file.c:2258-2267 | The next character that is not whitespace |
| Scanning.ScanTagName | dev/src/pubfun/xml/mxml-file.c:1655-1680 | The name of a tag, and where it stops for comments, CDATA sections and processing instructions |
| Scanning.ScanMarkup | dev/src/pubfun/xml/mxml-file.c:1688-1809 | The three loops that collect verbatim markup up to their own ends |
| Scanning.ScanDeclaration | dev/src/pubfun/xml/mxml-file.c:1870-1884 | The loop that collects a declaration; it stores EOF as a byte and reads on when the name was cut off |
| Scanning.SkipCloseTag | dev/src/pubfun/xml/mxml-file.c:1960-1961 | The rest of a close tag is skipped up to `>` or end of file |
| Buffers.Buffer.Grow | dev/src/pubfun/xml/mxml-file.c:650-673 | The buffer doubles below 1024 bytes and gains 1024 from there on; its content stays, and four more bytes and a NUL fit |
| Buffers.AddByteOrCharacter | dev/src/pubfun/xml/mxml-file.c:641-714 | This variant stores every value with bit 7 as one byte; otherwise UTF-8. Content is exactly extended |
| Saving.WriteList | dev/src/pubfun/xml/mxml-file.c:2774-3051 | Over the nodes: the text and the column that the printer produces for a node and its following siblings |
| Saving.WriteOne | dev/src/pubfun/xml/mxml-file.c:2788-3041 | The same for one node of any kind |
| Saving.WriteInside | dev/src/pubfun/xml/mxml-file.c:2871-2910 | An element with children: the space behind its open tag, the children, and its end |
| Saving.WriteCloseTag | dev/src/pubfun/xml/mxml-file.c:2888-2909 | The end of an element with children; markup elements have none |
| Saving.WriteEmptyTag | dev/src/pubfun/xml/mxml-file.c:2911-2939 | The end of an element without children |
| Saving.WriteValue | dev/src/pubfun/xml/mxml-file.c:2942-3015 | Integers are separated when they have a previous sibling, texts when their flag is set and the column is not 0 |
| Saving.WriteOpenTag | dev/src/pubfun/xml/mxml-file.c:2799-2868 | The open tag; comments, CDATA sections and processing instructions are written without escapes |
| Saving.WriteWs | dev/src/pubfun/xml/mxml-file.c:3098-3130 | The whitespace callback is asked and the column follows what it wrote |
| Saving.IndentFor | dev/src/pubfun/xml/mxml-file.c:3132-3170 | The indentation, computed from the pointers, is the one that the position of the element in the tree asks for |
| Printing.StringSink.Put | dev/src/pubfun/xml/mxml-file.c:2625-2645 | Past the end of the buffer characters are counted but not stored |
| Printing.StringSink.WriteString | dev/src/pubfun/xml/mxml-file.c:3058-3091 | Escaping of `& < > "` |
| Printing.StringSink.WriteNameString | dev/src/pubfun/xml/mxml-file.c:2699-2767 | Names; a quoted name is escaped up to its own quote |
| Printing.StringSink.WriteAttributes | dev/src/pubfun/xml/mxml-file.c:2829-2868 | Attributes in order, each behind a space, or behind a newline when it would pass the wrap margin |
| Printing.StringSink.WriteSpaces | dev/src/pubfun/xml/mxml-file.c:3108-3127 | Columns after newlines, tabs and other characters |
| Saving.SaveString | dev/src/pubfun/xml/mxml-file.c:407-448 | For every node, the siblings behind it included, and every buffer of at least one byte: the result is the length of the full text, and the buffer holds as much of the text as fits before a NUL |
| Saving.TextOfRoot | dev/src/pubfun/xml/mxml-file.c:407-448 | For a node without parent that text is the saved tree, under a wrap margin that is never reached |
| Saving.TextOfKid | dev/src/pubfun/xml/mxml-file.c:407-448 | For a child it is the text of the child and of all later children of its parent |
| Saving.SaveAllocString | dev/src/pubfun/xml/mxml-file.c:253-297 | The complete text for every non-empty output, from the fixed buffer or from the second pass |
| Nodes.Add | dev/src/pubfun/xml/mxml-node.c:63-187 | Adding or moving a node keeps all pointers consistent and the forest free of cycles; the result is the removal followed by the insertion at the requested position |
| Nodes.Remove | dev/src/pubfun/xml/mxml-node.c:599-656 | Removing takes the node out of its list and changes nothing else; all pointers stay consistent |
| Nodes.LinkBefore | dev/src/pubfun/xml/mxml-node.c:101-141 | The pointer updates of an insertion before a child or at the front |
| Nodes.LinkAfter | dev/src/pubfun/xml/mxml-node.c:142-187 | The pointer updates of an insertion behind a child or at the end |
| Nodes.New | dev/src/pubfun/xml/mxml-node.c:728-775 | A new node becomes the last child of its parent |
| Moves.OthersStay | dev/src/pubfun/xml/mxml-node.c:63-187 | Apart from the added node every list keeps its nodes in their order, every other node keeps its parent, and the node is in the list of its new parent only: nothing is lost and nothing doubled |
| Moves.AddedWhere | dev/src/pubfun/xml/mxml-node.c:101-187 | The added node is the neighbour of the child that was named, or first or last if that is no child of the parent |
| Moves.RemoveUndoesAdd | dev/src/pubfun/xml/mxml-node.c:599-656 | Removing a node that was just added restores all lists and parents |
| Moves.AddUndoesRemove | dev/src/pubfun/xml/mxml-node.c:101-141 | Adding a removed node before its old successor puts it back |
| Moves.AddUndoesRemoveLast | dev/src/pubfun/xml/mxml-node.c:142-160 | Adding a removed last child behind all others puts it back |
| ForestOps.AttachWellFormed | dev/src/pubfun/xml/mxml-node.c:63-187 | An insertion keeps parents and lists in agreement and creates no cycle |
| Deletion.Delete | dev/src/pubfun/xml/mxml-node.c:197-278 | Deletion terminates and frees the nodes of the subtree, children before their parent; the rest stays consistently linked |
| Deletion.DeleteConserves | dev/src/pubfun/xml/mxml-node.c:197-278 | Exactly the nodes of the subtree are freed, once each; of the rest only the list of the former parent changes, by that node |
| ForestOrder.ChildrenFirst | dev/src/pubfun/xml/mxml-node.c:197-278 | No node is freed after a node that it hangs below, however deep |
| Search.WalkNext | dev/src/pubfun/xml/mxml-search.c:129-156 | The next node of the pre-order (or, not descending, the next node outside the subtree) within `top`; the climbing loop ends |
| Search.WalkPrev | dev/src/pubfun/xml/mxml-search.c:167-196 | The previous node of the pre-order, or, not descending, the previous sibling or the parent, within `top` |
| Search.WalkVisitsAll | dev/src/pubfun/xml/mxml-search.c:129-156 | Repeated steps from `top` visit its whole subtree in pre-order, each node once, and then return null for ever |
| Search.NextWithoutDescending | dev/src/pubfun/xml/mxml-search.c:129-156 | Not descending, a step on leads to the next sibling, or to the next sibling of the nearest node above that has one, below `top` |
| Search.StepsAreInverse | dev/src/pubfun/xml/mxml-search.c:129-196 | Descending, a step on and a step back undo each other: on the proper descendants of `top`, and outside its subtree on the whole tree |
| Search.OnlyFirstHasNoPrev | dev/src/pubfun/xml/mxml-search.c:167-196 | Descending, only the node that bounds the walk has no predecessor, and below `top` its first child |
| Search.PrevSibling | dev/src/pubfun/xml/mxml-search.c:167-196 | Not descending, a step back leads to the previous sibling, from which a step on leads back; from a first child it leads to the parent, right before it in the pre-order, unless that is `top` |
| Search.NoPrevWithoutDescending | dev/src/pubfun/xml/mxml-search.c:167-196 | Not descending, a step back is null exactly for the node that bounds the walk, for `top` and for the first child of `top` |
| Finding.FindElement | dev/src/pubfun/xml/mxml-search.c:47-118 | The first node with the name, the attribute and the value looked for, null if there is none: with `MXML_DESCEND_FIRST` among the children of the given node, if it has any; with `MXML_NO_DESCEND` among the siblings that follow it, or follow the nearest node above it that has later siblings; with `MXML_DESCEND` among everything behind it within `top`. Also for a node outside the subtree of `top` |
| Finding.WantedIsMatch | dev/src/pubfun/xml/mxml-search.c:70-97 | What a search accepts, in plain words: an element, of that name, whose first attribute of that name has a value, and that value |
| Attributes.ElementGetAttr | dev/src/pubfun/xml/mxml-attr.c:108-158 | The value of the first attribute of that name |
| Attributes.ElementSetAttr | dev/src/pubfun/xml/mxml-attr.c:170-316 | The value of an existing attribute is replaced in place; a new one comes last |
| Attributes.ElementDeleteAttr | dev/src/pubfun/xml/mxml-attr.c:49-98 | The attribute is removed and the others keep their order |
| Attributes.GetAfterSet | dev/src/pubfun/xml/mxml-attr.c:254-316 | A name that was set has the value it was set to; every other name keeps its value |
| Attributes.SetKeepsOrder | dev/src/pubfun/xml/mxml-attr.c:254-316 | Names keep their order, and unique names stay unique |
| Attributes.GetAfterDelete | dev/src/pubfun/xml/mxml-attr.c:49-98 | A deleted name is gone; every other name keeps its value |
| Attributes.DeleteKeepsUnique | dev/src/pubfun/xml/mxml-attr.c:49-98 | Deletion keeps the names of an element unique |
| Attributes.SetThenDelete | dev/src/pubfun/xml/mxml-attr.c:49-98 | Deleting a newly set attribute restores the list |
| Sorting.IndexSort | dev/src/pubfun/xml/mxml-index.c:573-644 | The quicksort with its tail loop terminates, permutes only the given range and leaves it ordered |
| Sorting.Partition | dev/src/pubfun/xml/mxml-index.c:593-634 | One partition step: what is left of the pivot is not after it, what is right of it not before it |
| Sorting.IndexCompare | dev/src/pubfun/xml/mxml-index.c:491-522 | The order of nodes is that of their keys: name, then attribute value |
| Sorting.CompareTransitive | dev/src/pubfun/xml/mxml-index.c:491-522 | That order is transitive |
| Chars.StrCmpDiffers | dev/src/pubfun/xml/mxml-index.c:491-522 | The string comparison that it uses decides by the first difference, and puts the end of a string first |
| IndexBuild.IndexNew | dev/src/pubfun/xml/mxml-index.c:298-444 | A new index is sorted, its cursor is at the start, and it holds exactly the nodes that match, with no node twice or lost |
| IndexBuild.CollectedExactly | dev/src/pubfun/xml/mxml-index.c:333-368 | Those nodes are the matching ones below the given node, each once, and the node itself exactly if neither name nor attribute is given |
| IndexBuild.Collect | dev/src/pubfun/xml/mxml-index.c:333-368 | The array is filled with them in document order; it has a multiple of 64 places, and fewer than 64 are unused |
| Indexes.NodeIndex.Find | dev/src/pubfun/xml/mxml-index.c:115-284 | One call moves the cursor and answers as the search over the keys defines |
| Indexes.NodeIndex.FindFirst | dev/src/pubfun/xml/mxml-index.c:176-257 | The binary search, its step back over equal nodes, and the scan of what it is left with |
| Indexes.NodeIndex.Enum | dev/src/pubfun/xml/mxml-index.c:85-102 | Enumeration returns the node at the cursor and advances; at the end null |
| Indexes.NodeIndex.Reset | dev/src/pubfun/xml/mxml-index.c:456-483 | The cursor goes back to the start |
| IndexRuns.FindAll | dev/src/pubfun/xml/mxml-index.c:115-284 | From a reset through repeated calls to the first null, an index delivers exactly the nodes that a linear scan of it finds, in the same order |
| IndexRuns.BuildAndFindAll | dev/src/pubfun/xml/mxml-index.c:115-444 | From the tree to the answers: building an index and finding in it until null delivers, each once, exactly the nodes that a linear search of the indexed part of the tree delivers |
| IndexSearch.FindEnumerates | dev/src/pubfun/xml/mxml-index.c:115-284 | In a sorted index, repeated calls with one element name (and a value or none) return exactly the matching nodes, in order and once each, then null for ever; so do calls without a name when all indexed names are equal |
| IndexSearch.SortedMeans | dev/src/pubfun/xml/mxml-index.c:491-522 | A sorted index is ordered by name, and by attribute value among equal names |
| IndexSearch.NoTargetLists | dev/src/pubfun/xml/mxml-index.c:144-150 | With neither a name nor a value the calls return every node in turn, then null for ever |
| IndexSearch.NullIsFinal | dev/src/pubfun/xml/mxml-index.c:257-284 | Once a search has answered null, every call until the next reset answers null, whatever it looks for |
| IndexSearch.EnumeratesIff | dev/src/pubfun/xml/mxml-index.c:171-284 | For any keys and target: the calls enumerate the matches if and only if the first answer is right and the matches are next to each other |
| ValueSearch.ValueSearchCanMiss | dev/src/pubfun/xml/mxml-index.c:530-563 | A search by value alone can miss a match in a sorted index: a concrete index of three nodes |
| ValueSearch.ValueSearchExact | dev/src/pubfun/xml/mxml-index.c:530-563 | A search by value alone finds every value completely if and only if the index has at most two nodes or its values ascend |
| Entities.EntityCallback | dev/src/pubfun/xml/mxml-entity.c:154-457 | The binary search finds the value of the entry of that name in the table of 257 entities, or -1 if there is none |
| EntityTable.TableOrder | dev/src/pubfun/xml/mxml-entity.c:161-424 | The table is in `strcmp` order, as the binary search needs |
| Entities.EntityGetValue | dev/src/pubfun/xml/mxml-entity.c:102-116 | The first answer that is not negative; -1 if all are |
| Entities.StandardFirst | dev/src/pubfun/xml/mxml-entity.c:72-92 | Whatever callbacks are added, the four entities that the printer writes stand for their characters |
| EncodingProofs.DecodeEncoded | dev/src/pubfun/xml/mxml-file-utf8.c:674-711 | UTF-8, section 3 of RFC 3629: for every character up to 0x1FFFFF that is not a forbidden control character, both readers give back what `mxml_add_char` stores and consume exactly those bytes |
| EncodingProofs.ReencodeString | dev/src/pubfun/xml/mxml-file-utf8.c:2399-2524 | A character that the string reader accepts as UTF-8 was written in exactly the bytes that encoding it gives: overlong forms are refused |
| EncodingProofs.ReencodeStream | dev/src/pubfun/xml/mxml-file-utf8.c:721-897 | The same for the file reader |
| EncodingProofs.DecodesIffEncoded | dev/src/pubfun/xml/mxml-file-utf8.c:721-897 | Both readers accept a byte string as UTF-8 if and only if it starts with the encoding of such a character |
| EncodingProofs.DecodeAll | dev/src/pubfun/xml/mxml-file-utf8.c:2389-2524 | A whole text is read back unchanged |
| EncodingProofs.ExamplesOfTheStandard | dev/src/pubfun/xml/mxml-file-utf8.c:674-897 | The examples of section 7 of RFC 3629: both readers deliver their characters, and writing these gives the bytes |
| EncodingProofs.ReadersAgree | dev/src/pubfun/xml/mxml-file-utf8.c:721-897 | On bytes without byte-order mark the two readers deliver the same characters up to the first end of file |
| Utf16Proofs.DecodeUtf16 | dev/src/pubfun/xml/mxml-file-utf8.c:899-993 | UTF-16, section 2.1 of RFC 2781, and besides it low surrogates on their own: in both byte orders the file reader recovers every such character, except that those whose low surrogate is 0xDFFF read as end of file |
| Utf16Proofs.ReencodeUtf16 | dev/src/pubfun/xml/mxml-file-utf8.c:899-993 | Conversely, what the file reader accepts as UTF-16 came from exactly the bytes of its encoding, and is one of these characters |
| Utf16Proofs.DecodesIffUtf16 | dev/src/pubfun/xml/mxml-file-utf8.c:899-993 | So it accepts bytes if and only if they start with the encoding of such a character |
| Utf16Proofs.AcceptsBeyondUtf16 | dev/src/pubfun/xml/mxml-file-utf8.c:899-993 | Where it departs from RFC 2781: of what it accepts, exactly the words from 0xDC00 to 0xDFFF are no UTF-16 |
| Utf16Proofs.LoneLowSurrogate | dev/src/pubfun/xml/mxml-file-utf8.c:899-930 | The bytes DC 00, which are no UTF-16, are delivered as a character |
| Utf16Proofs.RefusedCharacter | dev/src/pubfun/xml/mxml-file-utf8.c:899-930 | The bytes D8 00 DF FF, which are UTF-16, read as end of file |
| Utf16Proofs.StringUtf16Exact | dev/src/pubfun/xml/mxml-file-utf8.c:2526-2612 | The string reader agrees, except that a big-endian character below 0x100 reads as the end of the string |
| Utf16Proofs.DecodeAllUtf16 | dev/src/pubfun/xml/mxml-file-utf8.c:752-993 | A whole UTF-16 text behind its byte-order mark is read back unchanged, by both readers up to the first character at which they stop |
| Utf16Proofs.ExampleOfTheStandard | dev/src/pubfun/xml/mxml-file-utf8.c:752-993 | The example of section 4 of RFC 2781, in both byte orders |
| FileInput.FdInput.Read | dev/src/pubfun/xml/mxml-file-utf8.c:1077-1113 | Interrupted reads are repeated; the buffer is refilled without losing or repeating a byte |
| FileInput.FdInput.GetC | dev/src/pubfun/xml/mxml-file-utf8.c:721-1001 | The character and the encoding are those of the bytes still to come, wherever the file was cut |
| FileInput.ReadAll | dev/src/pubfun/xml/mxml-file-utf8.c:721-1001 | However a file is cut into reads, the characters up to its first end are those of the string reader on the whole (without byte-order mark) |
| FileOutput.FdOutput.PutC | dev/src/pubfun/xml/mxml-file-utf8.c:1008-1070 | The bytes received and waiting are exactly those that were put; the buffer of 8192 bytes is never passed |
| FileOutput.FdOutput.Flush | dev/src/pubfun/xml/mxml-file-utf8.c:1120-1156 | Under partial writes the whole buffer reaches the file in order; after a failure a beginning of it has |
| FileOutput.WriteAll | dev/src/pubfun/xml/mxml-file-utf8.c:1008-1156 | A whole text reaches the file, or after a failure its beginning |
| Buffers.AddCharacter | dev/src/pubfun/xml/mxml-file-utf8.c:641-714 | The growing buffer holds the concatenation of all encodings, and a NUL still fits |

## Left out

- Exact.SaveLoadExact: for trees whose text consists of bytes; and that loading could return a tree that is not canonical beside another node that it loses is not excluded.
- RootProofs.SaveWithSpacesThenLoad: for trees without opaque values (in an opaque value inserted whitespace is content), and for callbacks that write nothing before the root and whose answers depend on the document alone.
- Layout.IndentedLines: for documents in which every element holds elements alone or values alone, and markup holds no values; `Layout.IndentationAt` with `Layout.SavedAsLaid` covers the others, node by node instead of line by line.
- References.StoredAs: for characters below 0x200000, which is what four bytes can hold.
- Nodes.Add: `child` is not the added node, the parent does not lie below the added node, and `where` is one of its two named values; the C code follows its pointers into a cycle or does nothing useful otherwise.
- Saving.SaveString: the buffer has at least one byte; a null callback and `_write_ws_cb` are the callbacks of the in-place printer, any other is a function in `Writer`.
- Loading.LoadString: for a null `top`, and for load callbacks that decide by the name and the attributes of the element; nodes at the top behind the first one are leaked after an error, as in the C code.
- Search.WalkNext: for nodes below `top`, or, when `top` does not contain the node, with the root of its tree as bound.
- IndexBuild.IndexNew: when neither a name nor an attribute is given the node is an element, because the comparison reads its name. That indexed nodes stay elements with the indexed attribute is the invariant of an index that `Indexes.NodeIndex.Find` needs.
- FileOutput.FdOutput.Flush: `write` accepts at least one byte when it does not fail; with zero bytes for ever the C loop does not end.
- SAX parsing, `mxmlRelease` and `mxmlRetain`, custom load, save and error callbacks, and nodes with custom or real values.
- `mxmlLoadFd`, `mxmlSaveFd`, `mxmlLoadFile` and `mxmlSaveFile`: the parser over `FileInput` and the printer over `FileOutput` are not composed; `mxml_file_getc` and `mxml_file_putc` repeat the descriptor versions over C streams.
- In `mxml-file.c`, the UTF-16 and multi-byte branches of the string reader, which are never reached because the test at line 2410 is always true, and the multi-byte branches of its string writer, which signed `char` values never reach.
- Memory that cannot be allocated, error messages, thread-local globals, and the copies of strings: a string in a node is a value.
- Integer overflow of buffer sizes, columns and lengths; `long` is taken to have 64 bits, `int` 32, and `char` to be signed.
- `mxmlEntityAddCallback` and `mxmlEntityRemoveCallback`: the list of callbacks is a parameter.
- `mxmlIndexDelete`, `mxml-set.c`, `mxml-string.c`, `xml.c`, and everything outside `dev/src/pubfun/xml`.

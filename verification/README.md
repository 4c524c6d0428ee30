# Verification of the JSON engine, the loader and the sized queue

A Dafny model of four parts of the repository, and proofs about it. Check it with
`dafny verify dfyconfig.toml`.

1. **The JSON engine** (`mrbgems/json-with-casing/src/parson.c`), built with exact 64-bit integers.
   `Bytes`, `Utf8`, `JsonStrings` and `JsonSpelling` are about string literals; `JsonTree` and
   `JsonParser` define the trees and what the parser makes of a text, recursively. `JsonSyntax`
   describes the texts of a value: any layout, any spelling of strings, comments of both kinds. One
   theorem says that the parser reads every such text, and one (`JsonRefusal`) which texts of that
   shape it refuses; the two printers (`JsonPrinter` here, `RubyJson` below) are shown to print one,
   and what pretty printing adds to it is `JsonLayout`. `JsonGrammar` is a grammar written without
   any of the parser's functions: what is accepted is exactly what it describes.
   `JsonSerializer` is the two-pass serializer on a byte buffer, `JsonComments` the comment remover,
   `JsonCompare` equality and validation. `Entries` and `Tables` are the growable objects and arrays
   and the maps they stand for. `Forest`, `ForestValues`, `HeapGrowth` and `DottedPaths` are the
   theory of the values in memory: a map from live nodes to their fields, what each operation does to
   it, and what that means for the JSON values the nodes stand for. `LiveValues`, `LiveDotted` and
   `LiveCopy` are the operations themselves, on objects with parent pointers and tables, each proved
   to do just that, and `JsonCursor` and `LiveParser` are the parser over a moving cursor that builds
   its result with them.
2. **The generator and key casing** (`mrb_json.c`, `symbol_key_conversion.c`): `KeyCasing`,
   `RubyJson`, and `LiveRuby` for the way back through live values.
3. **The loader** (`mrbgems/require/src/require.c`): `Require`. The files form a finite graph.
4. **The sized queue** (`mrbgems/thread/src/sized_queue.c`): `SizedQueue`, a state machine of N
   threads whose steps are the locked sections, the waits and the signals.

Conventions. A string is its bytes; a C string is one without a zero byte, and what the C code reads
behind the end is a zero. `NULL` results are `None`, rejections or `null`. Allocation succeeds. The
parser has a third outcome, `NeedsDouble`, for numbers that the fixed-number branch leaves to
`strtod`; nothing is claimed after it.

Where the code differs from what one might expect, the model follows the code: text behind the first
value is ignored, leading zeros and a lone minus sign are numbers, an empty hash or array is
pretty-printed over two lines, a failed dotted update with a value that has a parent leaves new
objects behind, a non-blocking `SizedQueue` call that raises leaves its waiting counter raised for
ever, a blocking one can miss its signal and sleep on, and the queue's `enq` and `deq` are unshift
and pop.

## Model

| member | source | states |
|---|---|---|
| Bytes.BytesAreAscii | mrbgems/json-with-casing/src/parson.c:503-1043 | the named bytes are the characters they are called after |
| Bytes.ClassesAreAscii | mrbgems/json-with-casing/src/parson.c:53 | the character classes are those of the C locale |
| Utf8.IsValidUtf8 | mrbgems/json-with-casing/src/parson.c:246-256 | accepts a string exactly when it is the concatenation of the UTF-8 encodings of some scalar values (section 3 of RFC 3629) |
| Utf8.ValidFromIffWellFormed | mrbgems/json-with-casing/src/parson.c:189-256 | the scan over sequence lengths, tail bytes, overlong forms, surrogates and the upper limit lands on the end of the string iff such scalar values exist |
| Utf8.CharIsEncoded | mrbgems/json-with-casing/src/parson.c:204-244 | every byte sequence of the grammar in section 4 of RFC 3629 is the encoding of a scalar value |
| Utf8.EncodedIsComputed | mrbgems/json-with-casing/src/parson.c:204-244 | the masks and shifts of the checker compute the scalar value from its encoding |
| JsonStrings.ScannerAndDecoderAgree | mrbgems/json-with-casing/src/parson.c:503-637 | when the closing quote is found and decoding succeeds, the decoder has consumed exactly the bytes up to that quote and written no more than it read |
| JsonStrings.StepIsScanned | mrbgems/json-with-casing/src/parson.c:503-624 | one decoding step, a multi-byte escape or surrogate pair included, never jumps over the quote the scanner finds |
| JsonStrings.WriteCodePoint | mrbgems/json-with-casing/src/parson.c:536-566 | the masks and shifts write the UTF-8 encoding of the code point behind what was written before |
| JsonStrings.ParseUtf16Into | mrbgems/json-with-casing/src/parson.c:523-570 | succeeds exactly on a legal escape or surrogate pair (section 2.2 of RFC 2781), writes its encoding, and leaves both offsets on the last byte read and written |
| JsonStrings.ProcessString | mrbgems/json-with-casing/src/parson.c:572-626 | returns what byte-by-byte decoding gives, and never overruns its buffer of len + 1 bytes |
| JsonSpelling.HexIsRead | mrbgems/json-with-casing/src/parson.c:162-187 | four bytes are read as a number exactly when they are its hexadecimal digits, the most significant first, each in either case |
| JsonSpelling.ShortIsRead | mrbgems/json-with-casing/src/parson.c:583-597 | a backslash and a letter stand for a character exactly as in section 7 of RFC 8259 |
| JsonSpelling.SpellingDecodes | mrbgems/json-with-casing/src/parson.c:503-637 | any legal spelling of a string, raw bytes, short escapes, \u escapes and pairs mixed, is scanned to its closing quote and decoded to the bytes it stands for |
| JsonSpelling.AnySpellingDecodesTheSame | mrbgems/json-with-casing/src/parson.c:503-637 | however each scalar value of a sequence is written, as its UTF-8 bytes, its short escape, its four hexadecimal digits or those of its surrogate pair 0xD800 + (c - 0x10000) / 0x400 and 0xDC00 + (c - 0x10000) % 0x400, the literal decodes to the UTF-8 encoding of the sequence (section 7 of RFC 8259) |
| JsonSpelling.DecodedIffSpelled | mrbgems/json-with-casing/src/parson.c:503-637 | a string literal is decoded, to these bytes and up to this offset, exactly if a legal spelling of them stands there |
| JsonSpelling.Utf8IsPreserved | mrbgems/json-with-casing/src/parson.c:503-637 | a literal whose inside is valid UTF-8 decodes, if at all, to valid UTF-8 |
| JsonParser.AcceptedTextIsNormal | mrbgems/json-with-casing/src/parson.c:639-807 | every accepted text gives a tree with distinct names and at most MAX_NESTING levels below its root, and the cursor ends within the text |
| JsonParser.ParseValue | mrbgems/json-with-casing/src/parson.c:639-662 | the cursor ends between its start and the end of the text, and the recursion ends |
| JsonParser.ParsedValueIsNormal | mrbgems/json-with-casing/src/parson.c:639-662 | the same at every offset and nesting level, within the levels that are left |
| JsonCursor.Cursor.SkipQuotes | mrbgems/json-with-casing/src/parson.c:503-521 | the scan over a moving cursor finds the quote of the byte-wise definition, and stops behind it |
| JsonCursor.Cursor.GetQuotedString | mrbgems/json-with-casing/src/parson.c:628-637 | scans, then decodes exactly the scanned bytes |
| LiveParser.ParseValue | mrbgems/json-with-casing/src/parson.c:639-662 | an accepted text becomes a new tree of live nodes with the value and the end position of the recursive definition, right parent pointers and tables without spare room; everything else is as before. A refused text leaves the heap as it was. The steps are a run of the operations on values |
| LiveParser.ParseArrayValue | mrbgems/json-with-casing/src/parson.c:720-758 | the same for arrays: the array that was made is freed again, with all its items, on every failing branch |
| LiveParser.ParseObjectValue | mrbgems/json-with-casing/src/parson.c:664-718 | the same for objects |
| LiveParser.FillItems | mrbgems/json-with-casing/src/parson.c:731-746 | the loop appends one new tree a turn to the array under construction; it terminates although a lone minus sign consumes nothing by itself |
| LiveParser.FillMembers | mrbgems/json-with-casing/src/parson.c:676-705 | the loop adds one new tree a turn to the object under construction; a name that is there refuses the text |
| LiveParser.KeepMember | mrbgems/json-with-casing/src/parson.c:696-701 | adds the parsed value under its name, or frees it again, which leaves the object under construction as it was |
| LiveParser.CloseArray | mrbgems/json-with-casing/src/parson.c:747-757 | the finished array has exactly the parsed items, and its capacity is its count |
| LiveParser.CloseObject | mrbgems/json-with-casing/src/parson.c:706-717 | the finished object has exactly the parsed members, and its capacity is its count |
| LiveParser.JsonParseString | mrbgems/json-with-casing/src/parson.c:1089-1097 | json_parse_string on live values: value of the recursive definition, byte order mark included, or no change |
| LiveParser.JsonParseStringWithComments | mrbgems/json-with-casing/src/parson.c:1099-1112 | json_parse_string_with_comments: both removals on a copy, then the same |
| JsonSyntax.NumberIsParsed | mrbgems/json-with-casing/src/parson.c:787-800 | the decimal text of any int64, in front of anything that cannot continue a number, is read back as that number |
| JsonSyntax.TextIsRead | mrbgems/json-with-casing/src/parson.c:639-807 | wherever a text of a value stands, in any layout and spelling, and whatever follows (digits cannot follow digits), parsing returns the value and stops right behind the text |
| JsonSyntax.WholeTextIsRead | mrbgems/json-with-casing/src/parson.c:1089-1097 | so does json_parse_string on whole texts, with leading white space, a byte order mark and trailing text allowed |
| JsonRefusal.ReadOrRefused | mrbgems/json-with-casing/src/parson.c:572-807 | a text with the shape of a value, with or without raw control bytes inside its strings, is read as that value exactly when there are none, no object repeats a name and the depth is within MAX_NESTING; otherwise it is refused |
| JsonRefusal.WholeTextReadOrRefused | mrbgems/json-with-casing/src/parson.c:1089-1097 | the same for json_parse_string, with leading white space and anything behind |
| JsonGrammar.AcceptedIffSpelled | mrbgems/json-with-casing/src/parson.c:639-807 | a value is accepted exactly when, behind white space, a text of it in the grammar stands there, no object repeats a name and it is no deeper than 2048 levels; the cursor stops behind that text |
| JsonGrammar.WholeTextAcceptedIffSpelled | mrbgems/json-with-casing/src/parson.c:1089-1097 | the same for json_parse_string, with the bytes EF BB BF passed over in front |
| JsonGrammar.NeedsDoubleIff | mrbgems/json-with-casing/src/parson.c:785-800 | strtod is reached exactly where no 64-bit integer stands without a fraction or an exponent |
| JsonPrinter.PrintIsText | mrbgems/json-with-casing/src/parson.c:829-1043 | what the serializer prints, compact or pretty, is a legal text of the tree, although it looks members up by name |
| JsonPrinter.PrettyIsLayout | mrbgems/json-with-casing/src/parson.c:829-982 | the pretty text is the compact one with a new line, indented by four spaces for each open bracket, behind opening brackets and commas and in front of closing ones, and a space behind colons; nothing between empty brackets; the compact text has no white space outside string literals |
| JsonPrinter.EscapeIsExact | mrbgems/json-with-casing/src/parson.c:984-1043 | quotes, backslashes, slashes and the five controls with a short escape are printed as that escape, other controls as six bytes with lower-case digits, everything else as it is |
| JsonPrinter.NumberIsCanonical | mrbgems/json-with-casing/src/parson.c:945-957 | numbers are printed without leading zeros, with a sign exactly if they are negative |
| JsonPrinter.ParseUndoesPrint | mrbgems/json-with-casing/src/parson.c:829-1043 | parsing the printed text gives back the same tree with the same member order exactly when names are distinct and the depth is within MAX_NESTING |
| JsonPrinter.PrintedFormIsStable | mrbgems/json-with-casing/src/parson.c:639-1043 | for every accepted text, parse, print and parse again gives the same tree |
| JsonSerializer.AppendString | mrbgems/json-with-casing/src/parson.c:1054-1059 | appending copies the text and one terminator, or only counts; the count is the same |
| JsonSerializer.AppendIndent | mrbgems/json-with-casing/src/parson.c:1045-1052 | four spaces a level, written or counted |
| JsonSerializer.SerializeString | mrbgems/json-with-casing/src/parson.c:984-1043 | the escaped literal, written or counted |
| JsonSerializer.SerializeToBuffer | mrbgems/json-with-casing/src/parson.c:829-982 | the counting pass returns exactly the number of bytes of the writing pass, which touches only those bytes and one terminator |
| JsonSerializer.SerializationSize | mrbgems/json-with-casing/src/parson.c:1503-1507 | the size is that of the printed text and its terminator |
| JsonSerializer.JsonSerializeToBuffer | mrbgems/json-with-casing/src/parson.c:1509-1521 | succeeds exactly when the caller's size is enough, and leaves the buffer alone otherwise |
| JsonSerializer.JsonSerializeToString | mrbgems/json-with-casing/src/parson.c:1546-1563 | cannot fail when memory is there; the buffer is exactly the printed text and a terminator |
| JsonComments.RemoveComments | mrbgems/json-with-casing/src/parson.c:308-341 | the in-place removal computes the byte-wise definition and keeps the terminator |
| JsonComments.Remove | mrbgems/json-with-casing/src/parson.c:308-341 | removal keeps the length, and every byte stays or becomes a space |
| JsonComments.LiteralPasses | mrbgems/json-with-casing/src/parson.c:317-340 | string literals are passed over byte for byte, whatever they contain, comment tokens included |
| JsonComments.DocPasses | mrbgems/json-with-casing/src/parson.c:308-341 | over a text with block comments and line comments between its tokens, the first pass replaces each block comment by spaces, the second each line comment up to its line feed, and nothing else changes |
| JsonComments.RemoveIsIdempotentIff | mrbgems/json-with-casing/src/parson.c:308-341 | a second removal changes nothing exactly when every comment the first one met was closed, or nothing like a comment starts, outside string literals, behind the opening token of the one that was not |
| JsonComments.RemoveIsIdempotent | mrbgems/json-with-casing/src/parson.c:308-341 | so it changes nothing if every comment was closed |
| JsonComments.UnchangedIffQuiet | mrbgems/json-with-casing/src/parson.c:308-341 | removal changes a text exactly when a comment starts in it outside string literals |
| JsonComments.UnclosedIsNotIdempotent | mrbgems/json-with-casing/src/parson.c:329-332 | the texts that fail it: an unclosed block comment with another start in it |
| JsonComments.CommentsAreInvisible | mrbgems/json-with-casing/src/parson.c:1099-1112 | with closed comments of both kinds between its tokens a text parses to the value of the text without them, and is refused exactly when that one repeats a name or is too deep |
| JsonComments.CommentedTreeIsRead | mrbgems/json-with-casing/src/parson.c:1099-1112 | closed comments, block and line, inserted anywhere between the tokens of a serialized tree do not change what it parses to |
| Entries.LookupIsMap | mrbgems/json-with-casing/src/parson.c:412-424 | scanning the names is looking up in the map the entries stand for |
| Entries.AddIsInsert | mrbgems/json-with-casing/src/parson.c:357-380 | adding refuses exactly the names in the map, and otherwise inserts |
| Entries.SetIsUpdate | mrbgems/json-with-casing/src/parson.c:1796-1815 | overwriting or adding is a map update, and keeps names distinct |
| Entries.RemoveIsDelete | mrbgems/json-with-casing/src/parson.c:1933-1952 | moving the last entry into the hole removes exactly that name from the map, and keeps names distinct |
| Entries.RemoveSwapsLast | mrbgems/json-with-casing/src/parson.c:1933-1952 | the last entry takes the place of the removed one, and all others stay where they are |
| Tables.ObjectTable.Resize | mrbgems/json-with-casing/src/parson.c:382-410 | new arrays of exactly the new capacity hold the same entries; zero is refused |
| Tables.ObjectTable.GetValue | mrbgems/json-with-casing/src/parson.c:412-424 | the loop with strlen and strncmp on the first n bytes is lookup of that prefix |
| Tables.ObjectTable.AddEntry | mrbgems/json-with-casing/src/parson.c:357-380 | growth included, the table refines adding to the entries; a full table gets twice the room, 16 slots at least |
| Tables.ObjectTable.SetEntry | mrbgems/json-with-casing/src/parson.c:1796-1815 | refines overwriting or adding |
| Tables.ObjectTable.RemoveEntry | mrbgems/json-with-casing/src/parson.c:1933-1952 | refines removal with swap |
| Tables.ObjectTable.Clear | mrbgems/json-with-casing/src/parson.c:1971-1982 | forgets the entries and keeps the arrays |
| Tables.ArrayTable.AddItem | mrbgems/json-with-casing/src/parson.c:450-461 | appends; a full array gets twice the room, 16 slots at least |
| Tables.ArrayTable.RemoveItem | mrbgems/json-with-casing/src/parson.c:1631-1641 | closes the gap by moving the items behind it |
| Tables.ArrayTable.ReplaceItem | mrbgems/json-with-casing/src/parson.c:1643-1651 | changes one item only |
| JsonCompare.JsonValueEquals | mrbgems/json-with-casing/src/parson.c:2048-2114 | the loops by index with lookup by name compute the recursive definition of equality |
| JsonCompare.EqualsIsSameMeaning | mrbgems/json-with-casing/src/parson.c:2048-2114 | with distinct names, equality is equality of the values in which objects are maps; so it ignores order |
| JsonCompare.EqualsIsEquivalence | mrbgems/json-with-casing/src/parson.c:2048-2114 | reflexive, symmetric and transitive on values with distinct names |
| JsonCompare.RepeatedNamesBreakSymmetry | mrbgems/json-with-casing/src/parson.c:2076-2091 | with a repeated name it is not even symmetric |
| JsonCompare.JsonValidate | mrbgems/json-with-casing/src/parson.c:1984-2046 | the loops compute the recursive definition of acceptance, comparison of sizes included |
| JsonCompare.AcceptsIffConforms | mrbgems/json-with-casing/src/parson.c:1984-2046 | acceptance is conformance: null stands for anything, the first item rules all items, all names are required; the comparison of sizes rejects nothing by itself |
| JsonCompare.RepeatedRuleRejects | mrbgems/json-with-casing/src/parson.c:2019-2024 | with a repeated name in the schema the comparison of sizes does reject |
| JsonCompare.ComposesIff | mrbgems/json-with-casing/src/parson.c:1984-2046 | for every t: "s accepts t and t accepts v imply that s accepts v" holds for all s and v exactly when t does not leak. It leaks when an empty array in it, reached by first items and by members, stands where everything else that the rule for that place has to accept is an array too, and all their items are of one kind other than null |
| JsonCompare.AcceptanceComposes | mrbgems/json-with-casing/src/parson.c:1984-2046 | so it does when t contains no empty array |
| JsonCompare.EmptyArrayBreaksComposition | mrbgems/json-with-casing/src/parson.c:2003-2006 | and through an empty array it fails for every item rule that rejects something |
| Forest.LinkedIsForest | mrbgems/json-with-casing/src/parson.c:357-380 | hanging a parentless value under a container it does not contain keeps the nodes a forest with right parent pointers and distinct names |
| Forest.UnlinkedIsForest | mrbgems/json-with-casing/src/parson.c:1301-1316 | freeing some children of a container, with everything below them, keeps it |
| Forest.EveryRunIsForest | mrbgems/json-with-casing/src/parson.c:1631-1982 | so does every sequence of creating, freeing, adding, setting, removing, clearing, appending and replacing; parsing, deep copies and dotted updates are such sequences (LiveParser.ParseValue, LiveCopy.DeepCopy, LiveDotted.DotSet) |
| Forest.SetStores | mrbgems/json-with-casing/src/parson.c:1796-1815 | a set stores the value under its name, frees exactly the tree that was there, and changes no other node |
| ForestValues.SetSetsTheMember | mrbgems/json-with-casing/src/parson.c:1796-1815 | a parentless value is always taken; after setting a member the value of the object is updated at that name; every unrelated tree keeps its value |
| ForestValues.AddAddsTheMember | mrbgems/json-with-casing/src/parson.c:357-380 | adding succeeds exactly when the name is not there, and then the value of the object has the member at its end; otherwise nothing changes; the others keep theirs, and nothing is freed |
| ForestValues.RemoveTakesTheMember | mrbgems/json-with-casing/src/parson.c:1933-1952 | removing succeeds exactly when the name is there, and then the value of the object is without that member, the last one in its place, and exactly the tree of that member is freed; otherwise nothing changes; the others keep theirs |
| ForestValues.ClearEmpties | mrbgems/json-with-casing/src/parson.c:1715-1982 | after clearing the value of the container is empty and exactly the trees in it are freed; the others keep theirs |
| ForestValues.AppendAppends | mrbgems/json-with-casing/src/parson.c:1727-1732 | a parentless value is always taken; after appending the value of the array has the item at its end; the others keep theirs, and nothing is freed |
| ForestValues.RemoveItemDrops | mrbgems/json-with-casing/src/parson.c:1631-1641 | removing an item succeeds exactly when there is one at that index, and then the value of the array is without it, in order, and exactly its tree is freed; otherwise nothing changes; the others keep theirs |
| ForestValues.ReplaceReplaces | mrbgems/json-with-casing/src/parson.c:1643-1651 | replacing by a parentless value succeeds exactly when there is an item at that index, and then the value of the array differs at that index only and exactly the tree of the old item is freed; otherwise nothing changes; the others keep theirs |
| ForestValues.ParentedIsRefused | mrbgems/json-with-casing/src/parson.c:1643-1815 | a value that has a parent is refused by set, append and replace, and nothing changes |
| ForestValues.FreeFrees | mrbgems/json-with-casing/src/parson.c:1301-1316 | freeing a parentless value takes exactly its tree away and leaves every other node as it is |
| HeapGrowth.NewIsApart | mrbgems/json-with-casing/src/parson.c:1420-1501 | what hangs below a tree under construction, a copy or a parsed value, is exactly what was not there before |
| HeapGrowth.GrowObject | mrbgems/json-with-casing/src/parson.c:696-701 | one add to an object under construction adds one member to its value, and what has been done stays a run that made one new tree |
| HeapGrowth.FreeingUndoes | mrbgems/json-with-casing/src/parson.c:680-712 | freeing a tree under construction gives back the heap from before it was begun |
| Forest.StoredElsewhere | mrbgems/json-with-casing/src/parson.c:1796-1815 | a tree that does not contain the object and was not replaced is node for node as before |
| LiveValues.Live.SetValue | mrbgems/json-with-casing/src/parson.c:1796-1815 | on the real tables and parent pointers: exactly that update, result included |
| LiveValues.Live.AddValue | mrbgems/json-with-casing/src/parson.c:357-380 | exactly the addition, or no change when the name is there |
| LiveValues.Live.RemoveValue | mrbgems/json-with-casing/src/parson.c:1933-1952 | exactly the removal, or failure and no change |
| LiveValues.Live.ClearObject | mrbgems/json-with-casing/src/parson.c:1971-1982 | frees all members and their trees, and nothing else |
| LiveValues.Live.AddItem | mrbgems/json-with-casing/src/parson.c:450-461 | exactly the append, growth of the table included |
| LiveValues.Live.TrimItems | mrbgems/json-with-casing/src/parson.c:463-479 | resizing to the count keeps everything and leaves no spare room; it fails exactly for an empty array |
| LiveValues.Live.TrimMembers | mrbgems/json-with-casing/src/parson.c:382-410 | the same for objects |
| LiveValues.Live.AppendValue | mrbgems/json-with-casing/src/parson.c:1727-1732 | exactly the append, or failure when the value has a parent |
| LiveValues.Live.RemoveAt | mrbgems/json-with-casing/src/parson.c:1631-1641 | exactly the removal, or failure when there is no such item |
| LiveValues.Live.ReplaceAt | mrbgems/json-with-casing/src/parson.c:1643-1651 | exactly the replacement, or failure when there is no such item or the value has a parent |
| LiveValues.Live.ClearArray | mrbgems/json-with-casing/src/parson.c:1715-1725 | frees all items and their trees, and nothing else |
| LiveValues.Live.MakeObject | mrbgems/json-with-casing/src/parson.c:1318-1331 | a new empty object outside all containers, sharing no table |
| LiveCopy.DeepCopy | mrbgems/json-with-casing/src/parson.c:1420-1501 | the copy has the value of its source and json_value_equals holds between them; it consists of new nodes only, and they are all the new nodes; every other node is as before |
| LiveCopy.NextNameIsNew | mrbgems/json-with-casing/src/parson.c:1457-1465 | the add inside the copy loop cannot fail, and the lookup by name finds the member at that index: names are distinct |
| LiveCopy.LiveEqualsIsSameMeaning | mrbgems/json-with-casing/src/parson.c:2048-2114 | json_value_equals holds between the values of two nodes exactly when they mean the same |
| LiveCopy.ValuesAreNormal | mrbgems/json-with-casing/src/parson.c:357-364 | the value of every live node has distinct names throughout |
| DottedPaths.SegmentsJoin | mrbgems/json-with-casing/src/parson.c:1150-1155 | a name is its dot-free segments with dots between them |
| DottedPaths.BlockedIff | mrbgems/json-with-casing/src/parson.c:1851-1863 | going down the existing objects is blocked exactly when some proper prefix resolves to something that is not an object |
| DottedPaths.DotSetFailsIff | mrbgems/json-with-casing/src/parson.c:1839-1869 | with a value from outside all containers, a dotted update fails exactly then, and changes nothing |
| DottedPaths.DotSetIsExact | mrbgems/json-with-casing/src/parson.c:1839-1869 | when it succeeds: the path and its extensions resolve into the value, proper prefixes to objects (the old ones where there were any), and every other path as before |
| DottedPaths.DotSetOfParented | mrbgems/json-with-casing/src/parson.c:1849-1867 | a value that already has a parent is refused at the end only: the update leaves the tree alone iff no object had to be made on the way |
| LiveDotted.DotGet | mrbgems/json-with-casing/src/parson.c:1149-1156 | finds what the path resolves to |
| LiveDotted.DotSet | mrbgems/json-with-casing/src/parson.c:1839-1869 | the recursion on live values is the update of those theorems, with the objects it makes, and a run of the operations on values |
| LiveDotted.Grow | mrbgems/json-with-casing/src/parson.c:1853-1864 | makes and adds an object, or frees it again and leaves everything as it was |
| KeyCasing.JsonKeyToRubySymbol | mrbgems/json-with-casing/src/symbol_key_conversion.c:8-42 | the loop with a flush pointer computes the byte-by-byte conversion |
| KeyCasing.RubySymbolToJsonKey | mrbgems/json-with-casing/src/symbol_key_conversion.c:44-82 | likewise, quotes included |
| KeyCasing.SymbolIsExact | mrbgems/json-with-casing/src/symbol_key_conversion.c:8-42 | for every key: an underscore is put in front of exactly the capitals that are neither first nor last and have a lower-case letter on at least one side; every byte of the key stands behind those put in up to it, capitals in lower case |
| KeyCasing.KeyIsExact | mrbgems/json-with-casing/src/symbol_key_conversion.c:44-82 | for every symbol: exactly the underscores between lower-case letters vanish, and the letter behind one becomes a capital |
| KeyCasing.RoundTripIffInvertible | mrbgems/json-with-casing/src/symbol_key_conversion.c:8-82 | a symbol comes back from its key unchanged exactly when it has no upper-case letter and every hump in it (an underscore between lower-case letters) has a letter behind it that is not the last byte, and either no hump two bytes before it or a lower-case letter two bytes behind it |
| KeyCasing.KeysAreDistinct | mrbgems/json-with-casing/src/symbol_key_conversion.c:44-82 | invertible symbols never collide as keys |
| RubyJson.StringToString | mrbgems/json-with-casing/src/mrb_json.c:87-125 | the loop writes the escaped literal of the bytes before the first zero |
| RubyJson.MrbValueToString | mrbgems/json-with-casing/src/mrb_json.c:65-201 | the generator computes the recursive definition of the text, levels of pretty printing included |
| RubyJson.GenerateIsText | mrbgems/json-with-casing/src/mrb_json.c:65-201 | the generated text has the shape of the tree the value stands for, and is a legal text of it exactly when its strings hold no control bytes without a short escape before their first zero |
| RubyJson.PrettyIsLayout | mrbgems/json-with-casing/src/mrb_json.c:41-201 | pretty_generate is generate with a new line, indented by two spaces for each open bracket, behind opening brackets and commas, in front of closing ones, and between empty ones; generate puts no white space outside string literals |
| RubyJson.EscapeByteIsExact | mrbgems/json-with-casing/src/mrb_json.c:87-125 | exactly quotes, backslashes and the controls \b, \t, \n, \f and \r are escaped, by their short escapes |
| RubyJson.JsonOfPlain | mrbgems/json-with-casing/src/mrb_json.c:65-201 | that tree has distinct names and bounded depth: converted keys do not collide |
| RubyJson.BackToRuby | mrbgems/json-with-casing/src/mrb_json.c:203-290 | converting the tree back gives the value |
| RubyJson.LastMemberWins | mrbgems/json-with-casing/src/mrb_json.c:238-262 | for every object: the hash has exactly the symbols that its names become, each once, and of names that become the same symbol the last one gives the value |
| RubyJson.GeneratedIsReadOrRefused | mrbgems/json-with-casing/src/mrb_json.c:65-374 | parsing a generated text gives the tree of the value, or is refused: exactly for such a control byte, two keys that become the same name, or too many levels |
| RubyJson.ParseUndoesGenerateIff | mrbgems/json-with-casing/src/mrb_json.c:315-374 | generate or pretty_generate followed by parse with symbolize_names gives the value back exactly when it is plain: no symbol as a value, no control byte without a short escape, all keys from the invertible class, depth within MAX_NESTING |
| RubyJson.ParseUndoesGenerate | mrbgems/json-with-casing/src/mrb_json.c:315-374 | so it is the identity on plain values |
| LiveRuby.JsonValueToMrbValue | mrbgems/json-with-casing/src/mrb_json.c:203-290 | the loops over live values, with lookup by name, compute that conversion |
| LiveRuby.MrbJsonParse | mrbgems/json-with-casing/src/mrb_json.c:315-348 | JSON.parse returns the conversion of the parsed value or raises, and frees what it made: the heap is as before |
| LiveRuby.GenerateAndParse | mrbgems/json-with-casing/src/mrb_json.c:315-374 | the identity on plain values for the methods of all three files run one after the other |
| Require.RequireRunsEachFileOnce | mrbgems/require/src/require.c:163-190 | a require runs, and lists, exactly the files it marks, each once; cycles included |
| Require.RequireKeepsConsistent | mrbgems/require/src/require.c:163-190 | the marked files stay the disjoint union of the finished ones and those in progress, each once |
| Require.StartIsConsistent | mrbgems/require/src/require.c:174-183 | that holds when the body of a file starts, too |
| Require.RequiresMarkWhatIsReached | mrbgems/require/src/require.c:163-190 | a list of requires marks exactly what can be reached from it through files that were not marked before |
| Require.RequireKeepsOrder | mrbgems/require/src/require.c:163-190 | a listed file stands behind every file it requires, except those that require it back |
| Require.RequiresKeepIdle | mrbgems/require/src/require.c:163-190 | between top-level requires nothing is pending, the list is ordered in that sense, and the loaded files are closed under requiring |
| Require.OrderIffAcyclic | mrbgems/require/src/require.c:163-190 | the list has dependencies first exactly when no loaded file requires itself, directly or not |
| Require.ReplayLoadsTheSame | mrbgems/require/src/require.c:388-413 | the replay loads exactly the source's files, each once, and has dependencies first exactly when the source has |
| Require.ReplayKeepsOrderIff | mrbgems/require/src/require.c:404-408 | the replay lists the files in the source's order exactly when requiring the source's last feature by itself would |
| Require.ReplayMayReorder | mrbgems/require/src/require.c:404-408 | two files that require nothing always swap places |
| Require.RequireAbsolute | mrbgems/require/src/require.c:163-190 | the method computes the recursive definition, restores the load stack, and is only entered and left in a consistent state |
| Require.Load | mrbgems/require/src/require.c:89-119 | pushes, runs the body, pops: the stack is as before |
| Require.RunBody | mrbgems/require/src/require.c:106-112 | each require of a body runs with the file's own entry on top of the stack, which is what require_relative and __dir__ read |
| Require.InitCopy | mrbgems/require/src/require.c:388-413 | the loop from the last feature to the first is the replay |
| Require.LoadStack.Push | mrbgems/require/src/require.c:46-69 | the new entry has the old top as its parent and one more than its depth |
| Require.LoadStack.Pop | mrbgems/require/src/require.c:71-87 | the parent becomes the top; an empty stack stays empty |
| SizedQueue.StepKeepsBounded | mrbgems/thread/src/sized_queue.c:104-242 | every step of every thread keeps: length plus admitted writers plus unsent write signals within limit - 1 + N; admitted readers plus unsent read signals within length + N - 1 |
| SizedQueue.StepKeepsCounted | mrbgems/thread/src/sized_queue.c:104-242 | every step keeps the waiting counters equal to the calls between their locked sections plus all calls that ever raised |
| SizedQueue.StepKeepsConserved | mrbgems/thread/src/sized_queue.c:104-242 | every step keeps: added values are those in the queue, taken, and cleared |
| SizedQueue.EveryRunIsBounded | mrbgems/thread/src/sized_queue.c:104-242 | in every run of N threads the length never exceeds limit + N - 1, nothing is lost, and num_waiting is what the counters say |
| SizedQueue.BoundIsMet | mrbgems/thread/src/sized_queue.c:115-145 | for every limit and N some run reaches that length |
| SizedQueue.ReadsNothingIffShared | mrbgems/thread/src/sized_queue.c:180-242 | a pop or shift can come away with nothing exactly when there is more than one thread |
| SizedQueue.FirstInFirstOut | mrbgems/thread/src/sized_queue.c:115-242 | with push and shift only, or unshift and pop only, every run takes values in the order in which they were added |
| SizedQueue.NonblockRaisesOthersWait | mrbgems/thread/src/sized_queue.c:104-242 | in every run no more calls raise than asked not to block, and no more wait than did not ask |
| SizedQueue.FlagDecides | mrbgems/thread/src/sized_queue.c:104-242 | in a run where every write, or every read, asks not to block, none ever waits; where none asks, none ever raises |
| SizedQueue.CallsReturn | mrbgems/thread/src/sized_queue.c:115-242 | what a pop or shift returns is what left the queue, nothing only if it was empty; a call that saw a free place or a value goes on without waiting; clear empties the queue |
| SizedQueue.AddedWerePassed | mrbgems/thread/src/sized_queue.c:115-175 | in every run each value added, and each of the writes in progress, was passed to a call of its own |
| SizedQueue.EveryChangeIsSignalled | mrbgems/thread/src/sized_queue.c:115-242 | in every run each write and each read that changed the queue has sent exactly one signal, or is about to |
| SizedQueue.SignalWakesOne | mrbgems/thread/src/sized_queue.c:142-240 | the signal of a write wakes exactly one sleeping read, that of a read exactly one sleeping write, if there is one |
| SizedQueue.LeftAsleepIffShared | mrbgems/thread/src/sized_queue.c:129-144 | looking at the length and going to sleep are two steps, so a call can be left asleep beside values, or beside room, with all other threads idle: exactly when there is more than one thread |
| SizedQueue.Init | mrbgems/thread/src/sized_queue.c:56-88 | an empty queue with both counters at zero, or a refusal when the limit is not positive |
| SizedQueue.SharedContext.EnterWrite | mrbgems/thread/src/sized_queue.c:124-127 | the first locked section of push and unshift is the step of the protocol |
| SizedQueue.SharedContext.CommitPush | mrbgems/thread/src/sized_queue.c:137-140 | and the second one of push |
| SizedQueue.SharedContext.CommitUnshift | mrbgems/thread/src/sized_queue.c:169-173 | of unshift |
| SizedQueue.SharedContext.CommitPop | mrbgems/thread/src/sized_queue.c:202-205 | of pop, empty queue included |
| SizedQueue.SharedContext.CommitShift | mrbgems/thread/src/sized_queue.c:234-237 | of shift, empty queue included |

## Left out

- Numbers with a fraction or exponent, or beyond 64 bits: `strtod`, `%1.17g` and the tolerance in equality are floating-point library behaviour.
- Which of the texts that are not accepted are refused, and which run into a number for `strtod` first: that is stated for texts of the shape of a value (JsonRefusal.ReadOrRefused) and for single numbers (JsonGrammar.NeedsDoubleIff).
- Allocation failure, `int` overflow of byte counts, and memory that is used after it was freed: freed values just leave the set of live ones.
- Null arguments: the public functions refuse them first; here arguments are there.
- Reading and writing files, and the accessors and typed setters that only wrap the modelled functions.
- json_object_dotremove: the same descent as dotted access, followed by the modelled removal.
- Forest.EveryRunIsForest: a value is never put into itself or into something below it; the C code does not check this.
- Tables.ObjectTable.Resize: what fresh slots of an array hold is a parameter, where malloc leaves it open.
- LiveValues.Live.ClearObject: the loop that frees the members one by one is one step on the set of live values.
- LiveCopy.DeepCopy: the clean-up after a failed allocation is left out; the add that could fail for a repeated name is shown not to.
- LiveParser.ParseValue: the bytes of names and strings are values, not buffers that are freed.
- JsonCompare.JsonValueEquals: works on the values of nodes, not on the nodes; a name that is missing in the other object is a missing value, not a null pointer.
- RubyJson.ParseUndoesGenerateIff: hash keys are symbols, each once, and no key or symbol holds a quote, a backslash or a control byte; nothing is claimed about texts generated from those, which are written without escapes.
- Hash keys that are not symbols, objects with their own to_json, parsing without symbolize_names, and garbage collection.
- Key casing takes a letter's upper and lower case from the 26 ASCII letters, as the code does; symbol names have no zero byte.
- Require: name resolution, search paths and directories (a path stands for its directory), compiled features, loads that fail or raise, and plain `load` inside a file, which may not terminate.
- SizedQueue: the mutexes passed to the condition waits, spurious wakeups, liveness beyond SizedQueue.LeftAsleepIffShared, migration of values between interpreters, and the `nonblock` argument the C code leaves unset when it is not given.
- Migration of values and bytecode between interpreters in the thread gem, the pg, time and other gems: plumbing around libraries.

# Proofs about the parsers, printers and framing of tnode

This project models the hand-written state machines of tnode and of the two libraries it carries, and proves what
they promise.  It covers five components.

* **Reading JSON.**  The two forms of `GenericReader` (recursive and table-driven) are the same reader, which accepts
  exactly the texts that are laid out as JSON.  The character
  automaton of `json_parser.cpp` accepts exactly a grammar and delivers the events of its trees.  The Lua builder
  driven by it leaves exactly the table the text stands for, and the automaton undoes the text escaper exactly within
  the Basic Multilingual Plane.
* **Checking JSON against a schema.**  The streaming validator with its parallel validators decides the recursive
  definition of conformance; as the handler of a reader it lets exactly the conforming texts be read.
* **JSON values.**  Numbers are read exactly as far as 64 bits go; every successful parse builds one value in a
  document; what the plain and the pretty writer put out is read back as the same value; JSON pointers are printed and
  read back, and creating a value makes its pointer resolve.
* **XML.**  Character references are expanded in place; the destructive parser agrees with a parser on values,
  which accepts exactly the texts that are laid out as documents; what the printer writes is read back; the sibling
  and attribute lists stay consistent.
* **Socket framing.**  Frames do not depend on how the bytes arrive; sending loses, repeats and strands nothing under
  any interleaving of threads.

A text is a sequence of characters; a byte is a character below 256.  Where the code works by changing an object, an
array or a buffer, the model is a class or an array and each method is proved against a function; the properties are
then proved about that function.

## Files

| file | contents |
|---|---|
| `ReaderSpec.dfy`, `ReaderIterative.dfy`, `Reader.dfy` | the recursive reader, the table-driven one and their equivalence; both as methods of a stream reader |
| `Layout.dfy`, `JsonLiterals.dfy`, `JsonNumerals.dfy`, `JsonLayout.dfy`, `JsonFillers.dfy`, `JsonLayoutProof.dfy` | how a JSON text can be laid out, character by character: strings, numbers, blanks and comments, values; that the reader accepts exactly these texts |
| `JsonValue.dfy`, `Schema.dfy`, `SchemaStream.dfy`, `SchemaProof.dfy`, `SchemaIntegers.dfy`, `SchemaValidator.dfy`, `SchemaReader.dfy`, `SchemaMeaning.dfy` | values and events, schemas and conformance, the validator as a function, the proof, the checks of integers in words, the validator as objects and as the handler of a reader, what the keywords say |
| `JsonParserTable.dfy`, `JsonParserStep.dfy`, `JsonGrammar.dfy`, `JsonParserTokens.dfy`, `JsonParserProof.dfy` | the automaton: its table, one character, the grammar, runs over tokens, runs over texts |
| `LuaTables.dfy`, `LuaBuilding.dfy`, `LuaDecode.dfy`, `LuaUnderflow.dfy`, `LuaMisplaced.dfy`, `LuaScalars.dfy`, `JsonParser.dfy` | Lua values, the builder, decoding, the texts on which it is undefined, a text it misplaces, what scalars become, and the parser with its callback as objects |
| `Utf8.dfy`, `JsonEscapes.dfy`, `JsonEscapesRun.dfy` | the UTF-8 and UTF-16 codecs, the escaper of the Lua encoder, the automaton run over what it writes |
| `JsonNumbers.dfy`, `JsonStrings.dfy`, `JsonInsitu.dfy`, `JsonWellFormed.dfy` | the reader's scanners: numbers with their accumulators, strings with their escapes, strings read in place, when a string read is well-formed |
| `JsonDocument.dfy`, `JsonParsedTree.dfy` | stored values, the document as a handler, deep copies; what a successful parse delivers |
| `JsonItoa.dfy`, `JsonWriter.dfy`, `JsonReadBack.dfy`, `JsonPretty.dfy`, `JsonFormat.dfy` | the digits of integers, the text of a value and both writers, reading it back, the pretty text without its white space, and made of the compact one |
| `JsonPointer.dfy`, `JsonPointerTree.dfy`, `JsonPointerPaths.dfy` | reading and printing pointers, resolving them and creating values, what a path selects |
| `XmlExpand.dfy`, `XmlReferences.dfy`, `XmlText.dfy`, `XmlParser.dfy`, `XmlPrinter.dfy`, `XmlTree.dfy`, `XmlAttributes.dfy` | references expanded in place, what numeric ones stand for, the round trip on values, the destructive parser, the printer, the sibling lists, the attribute lists |
| `XmlLayout.dfy`, `XmlPieces.dfy`, `XmlLayoutProof.dfy` | how a document can be laid out, character by character; that the parser accepts exactly these texts |
| `Socket.dfy`, `SocketFrames.dfy` | receiving and sending frames, which bytes are frames |

## Where the code falls short of what it promises

| what happens | when | at an input |
|---|---|---|
| the error codes of the two readers differ | exactly when the root begins with a closing bracket, a comma or a colon: `ReaderIterative.IterativeEqualsRecursive` | "]": `JsonParsedTree.ClosingBracketCodes` |
| `luaT_json_parser_decode` takes the top of an empty stack, because `JSON_parser_char` calls back before it looks at its mode stack | exactly when a bracket of the text closes nothing: `LuaUnderflow.DecodeOutcomeByText` | "[]]": `LuaDecode.OneBracketTooMany` |
| an array index above 127 does not survive an inner array | exactly when an element that stays comes behind such an array: `LuaTables.ExactIffFaithful`, `LuaTables.IndexIsRight`; never without an array behind position 126: `LuaTables.NoLateArrays` | 126 nulls, an empty array and one more element: `LuaMisplaced.LateArrayIsMisplaced` |
| the string escaper takes digits from beyond their table | exactly for a string that is not well-formed up to its first zero: `JsonEscapes.DefinedIffWellFormed` | a byte 0xFF: `JsonEscapes.LoneByteIsUndefined` |
| an escaped string is not read back | exactly when a code point is beyond the Basic Multilingual Plane: `JsonEscapes.ReadBackIffBasicPlane`, and through the parser `JsonEscapesRun.ValueIsDelivered` and `JsonEscapesRun.KeyIsDelivered` | the code point 1F600: `JsonEscapes.EmojiIsNotReadBack` |
| the number rule of the automaton is not that of RFC 4627 | exactly at a number with an empty fraction or an exponent directly behind a lone zero: `JsonGrammar.NumberIsRfc` | "[1.]" and "[0e1]": `JsonGrammar.EmptyFractionIsLegal`, `JsonGrammar.ZeroExponentIsNotLegal` |
| an array index of a JSON pointer that needs more than 32 bits is taken for another one | `JsonPointer.IndexIsRight` | "/5000000000": `JsonPointer.LongIndexIsMistaken` |
| a JSON pointer does not resolve to what it has created | exactly when it has appended to an array with "-": `JsonPointerTree.CreatedResolves` | "/-" in an empty array: `JsonPointerTree.AppendedIsNotFound` |
| creating by a JSON pointer loses a value off its way | exactly when an array with elements on the way becomes an object: `JsonPointerTree.SomethingIsLost` | "/a" in the array [1]: `JsonPointerTree.ArrayIsLost` |
| an `int` of the number scanner leaves 32 bits | for each text exactly as `JsonNumbers.ReadNumber` says; for some text if and only if its fraction moves the exponent by more than nine digits, or by more than 214748055 when the exponent is positive: `JsonNumbers.SomeNumberWraps` | "1.0000000000e-2147483639": `JsonNumbers.ShortTextWraps`; a long fraction of zeros before e2147483648: `JsonNumbers.LongFractionWraps` |
| a string is read as ill-formed UTF-8 | from well-formed text exactly when an escape is a low surrogate with no high one before it: `JsonWellFormed.ReadIsWellFormed` | "\uDC00": `JsonWellFormed.LoneLowIsRead` |
| a numeric character reference does not stand for the number written | exactly when it has no digit, a digit that is not of its base or a number of more than 64 bits, and what the word holds is a code point: `XmlReferences.FrontAsWritten` | "&#;", "&#1A;" and "&#x10000000000000041;": `XmlReferences.NothingIsMistaken`, `XmlReferences.LetterIsMistaken`, `XmlReferences.WrappedIsMistaken` |
| reading a JSON pointer reads the character behind the end of its source, which need not be terminated | exactly as `JsonPointer.Read` says: for the empty source, and in a fragment where a sequence is cut short, which is then refused: `JsonPointer.BeyondIsRefused` | the empty source and "#/%C3": `JsonPointer.CutShortReadsBeyond` |
| the check of an integer negates one whose negation 64 bits do not hold | exactly for -2^63 within the limits of a schema with a divisor: `SchemaIntegers.CheckSigned` | `SchemaIntegers.LeastIntegerOverflows` |

## Model

| member | source | states |
|---|---|---|
| `ReaderIterative.IterativeEqualsRecursive` | deps/rapidjson-1.1.0/reader.h:485-702 | For every text, flag set, leaf scanner and handler, also one that stops early: the table-driven reader and the recursive one deliver the same events with the same counts, accept the same texts and stop at the same place; their error codes differ exactly when the root begins with a closing bracket, a comma or a colon |
| `ReaderIterative.ValueSimulation` | deps/rapidjson-1.1.0/reader.h:1392-1405 | From any state that wants a value and any stack, the table-driven loop does with a value what the recursive reader does with it, and then goes on in the state after a value |
| `ReaderIterative.MembersSimulation` | deps/rapidjson-1.1.0/reader.h:588-655 | The loop over the members of an object, with any count already on the stack, agrees with the recursive loop |
| `ReaderIterative.ElementsSimulation` | deps/rapidjson-1.1.0/reader.h:656-702 | The loop over the elements of an array, with any count already on the stack, agrees with the recursive loop |
| `ReaderIterative.TransitKeepsConsistent` | deps/rapidjson-1.1.0/reader.h:1649-1798 | Every transition leaves a state and a stack that fit each other, so that no pop meets an empty stack |
| `Reader.GenericReader.Parse` | deps/rapidjson-1.1.0/reader.h:485-516 | The method that advances a stream ends with the trace, position and error of the recursive reader |
| `Reader.GenericReader.ParseMembers` | deps/rapidjson-1.1.0/reader.h:588-655 | The member loop ends with the outcome of the recursive reader from where it stood |
| `Reader.GenericReader.ParseElements` | deps/rapidjson-1.1.0/reader.h:656-702 | The element loop ends with the outcome of the recursive reader from where it stood |
| `Reader.GenericReader.SkipWhitespaceAndComments` | deps/rapidjson-1.1.0/reader.h:560-586 | Blanks and, when the flag is set, comments of both kinds are skipped; an unterminated one is an error |
| `Reader.GenericReader.IterativeParse` | deps/rapidjson-1.1.0/reader.h:1821-1858 | The loop over an explicit stack ends with the outcome of the table-driven reader |
| `Reader.GenericReader.MakeTransition` | deps/rapidjson-1.1.0/reader.h:1649-1798 | One transition on the objects does what the transition function says to state, stack, position and trace |
| `SchemaProof.StreamingDecidesConformance` | deps/rapidjson-1.1.0/schema.h:1689-1733 | Fed the events of any value as a document reports them, each integer by the narrowest type, the validator with its nested parallel validators is back where it began if the value conforms to the schema, and invalid for good otherwise |
| `SchemaReader.TraceDecidesConformance` | deps/rapidjson-1.1.0/schema.h:1684-1733 | So it is for every trace that reports a value, whatever types that hold them its integers are reported by |
| `SchemaReader.ReaderDecidesConformance` | deps/rapidjson-1.1.0/schema.h:1953-1984 | With the validator as the handler of a reader, whatever the flags and the scanner, a text that can be read is read to its end if and only if its value conforms to the schema, and else the parse is terminated; the validator is valid in the end exactly if no event was refused |
| `SchemaReader.ParseFilters` | deps/rapidjson-1.1.0/reader.h:485-702 | Under any handler a parse is that under a handler that takes every event, up to the first event refused, with which it ends |
| `SchemaIntegers.CheckSigned` | deps/rapidjson-1.1.0/schema.h:1099-1136 | In 64-bit words the check of a signed integer is that of the specification, unless it negates the least integer, and it says exactly when it does |
| `SchemaIntegers.CheckUnsigned` | deps/rapidjson-1.1.0/schema.h:1138-1175 | In 64-bit words the check of an unsigned integer is that of the specification |
| `SchemaIntegers.LeastIntegerOverflows` | deps/rapidjson-1.1.0/schema.h:1126-1130 | The integer -2^63 under a divisor of two is negated |
| `SchemaProof.FeedValue` | deps/rapidjson-1.1.0/schema.h:1812-1878 | Inside any stack of contexts, the events of a value bring the validator to the end of that value if it conforms, with its parallel validators having seen them, and to the invalid state otherwise |
| `SchemaProof.ParallelVerdicts` | deps/rapidjson-1.1.0/schema.h:1049-1083 | Each parallel validator of a value has in the end the verdict of its own schema on that value |
| `SchemaProof.EndOkMeaning` | deps/rapidjson-1.1.0/schema.h:625-690 | With every parallel validator holding its own verdict, the check at the end of a value is the conjunction of allOf, anyOf, oneOf and not |
| `SchemaProof.EndObjectMeaning` | deps/rapidjson-1.1.0/schema.h:828-856 | The check at the end of an object says that required properties exist, the number of members is in its range and dependencies are met |
| `SchemaProof.BeginOkMeaning` | deps/rapidjson-1.1.0/schema.h:692-764 | The checks made when a value begins are those on its type and on its own keywords |
| `SchemaProof.FeedElements` | deps/rapidjson-1.1.0/schema.h:600-622 | The elements of an array are each checked against the schema for their position, up to the first that fails |
| `SchemaProof.FeedMembers` | deps/rapidjson-1.1.0/schema.h:783-826 | The members of an object are each checked against the schema their name selects, up to the first that fails |
| `SchemaValidators.GenericSchemaValidator.ScalarValue` | deps/rapidjson-1.1.0/schema.h:1684-1699 | Handling a scalar event changes the validator as the specification feeds it, and answers whether it is still valid |
| `SchemaValidators.GenericSchemaValidator.Start` | deps/rapidjson-1.1.0/schema.h:1701-1728 | Handling the start of a container changes the validator as the specification feeds it |
| `SchemaValidators.GenericSchemaValidator.KeyName` | deps/rapidjson-1.1.0/schema.h:1707-1713 | Handling a key selects the schema of the next value and notes the property |
| `SchemaValidators.GenericSchemaValidator.EndObjectValue` | deps/rapidjson-1.1.0/schema.h:1715-1720 | Handling the end of an object changes the validator as the specification feeds it |
| `SchemaValidators.GenericSchemaValidator.EndArrayValue` | deps/rapidjson-1.1.0/schema.h:1728-1733 | Handling the end of an array changes the validator as the specification feeds it |
| `SchemaValidators.GenericSchemaValidator.CreateParallelValidators` | deps/rapidjson-1.1.0/schema.h:1049-1083 | One fresh validator is made for each subschema, in slot order |
| `JsonParserProof.AcceptsExactlyTheGrammar` | src/json/json_parser.cpp:652-969 | For every text and depth the character automaton accepts exactly the texts of the grammar, and its callbacks are the preorder events of the tree, each scalar delivered once |
| `JsonGrammar.NumberIsRfc` | src/json/json_parser.cpp:242-287 | The number rule of the table agrees with section 2.4 of RFC 4627 on a text if and only if no number with an empty fraction stands at its front, and no exponent directly behind a lone zero |
| `JsonGrammar.EmptyFractionIsLegal` | src/json/json_parser.cpp:283 | The text "[1.]" is legal, at every depth that has room for the array, though its number is not one of RFC 4627 |
| `JsonGrammar.ZeroExponentIsNotLegal` | src/json/json_parser.cpp:262 | The text "[0e1]" is not legal at any depth, though its number is one of RFC 4627 |
| `JsonParserProof.DepthLimitsNesting` | src/json/json_parser.cpp:300-327 | A positive depth refuses exactly the trees with more than depth - 1 containers inside one another |
| `JsonParserProof.RunMembers` | src/json/json_parser.cpp:852-945 | From the opening bracket of an object, or a comma in it, the run reads the members the grammar says and goes on behind the closing bracket |
| `JsonParserProof.RunElements` | src/json/json_parser.cpp:837-931 | From the opening bracket of an array, or a comma in it, the run reads the elements the grammar says and goes on behind the closing bracket |
| `JsonParserTokens.RunNumber` | src/json/json_parser.cpp:706-741 | A number is read as far as the number rule goes and delivered, whole, when the next delimiter comes |
| `JsonParserTokens.RunString` | src/json/json_parser.cpp:522-642 | The delivered text of a string is its recursive unescaping, with surrogate pairs joined and code points encoded; a string the recursion refuses is refused |
| `JsonParserTokens.RunSecondEscape` | src/json/json_parser.cpp:695-705 | After a high surrogate exactly the escape of a low one goes on, and the pair is encoded as one code point |
| `JsonParserTokens.RunEnd` | src/json/json_parser.cpp:476-515 | After a value blanks change nothing, and the delimiter delivers what is pending exactly once |
| `JsonParserStep.CharKeepsInvariant` | src/json/json_parser.cpp:652-960 | Every character that is not refused keeps the invariant of the parser: what each state implies about the modes, the scalar under way and the buffer |
| `JsonParserObjects.JsonParser.Char` | src/json/json_parser.cpp:652-960 | The method makes the callbacks of the character, answers whether all were accepted and the character was legal, and moves the parser as the automaton says; every assertion of the code holds |
| `JsonParserObjects.JsonParser.PushBack` | src/json/json_parser.cpp:459-464 | The character is appended, the buffer doubling when full, and the buffer stays zero-terminated within its capacity |
| `JsonParserObjects.JsonParser.Push` | src/json/json_parser.cpp:300-327 | The mode is pushed, the stack doubling when the depth is unlimited; it is refused exactly at the depth |
| `JsonParserObjects.JsonParser.DecodeUnicodeChar` | src/json/json_parser.cpp:522-589 | The six characters of an escape become the bytes of its code point, within the capacity they leave, or a high surrogate that waits |
| `JsonParserObjects.JsonParser.Done` | src/json/json_parser.cpp:963-969 | The text is finished exactly when a value has ended and no mode but the first is left |
| `LuaDecode.DecodeOutcome` | src/lua/luaT_json_parser.cpp:316-360 | A text whose positive bytes are legal leaves exactly one more value on the Lua stack, the table the builder makes of its tree, with both stacks empty and no key waiting; a run is undefined exactly when it meets a closing bracket with nothing to close; any other text fails with the old stack below what it left |
| `LuaUnderflow.UnderflowsIffOvercloses` | src/lua/luaT_json_parser.cpp:84-112 | Decoding takes from an empty stack if and only if the text has a bracket that closes nothing: a prefix of it becomes legal by closing what is open, and the next character is a square bracket with no array open or a curly one with nothing open |
| `LuaUnderflow.DecodeOutcomeByText` | src/lua/luaT_json_parser.cpp:316-360 | The outcome of decoding, said of the text alone: undefined exactly when a bracket closes nothing, else the table of its tree or a failure |
| `LuaDecode.CharHandles` | src/lua/luaT_json_parser.cpp:84-314 | Between any two characters of any text the builder is in step with the parser: no value is ever without a key, no field is set of what is no table, and only a closing bracket with nothing to close takes from an empty stack |
| `LuaDecode.OneBracketTooMany` | src/lua/luaT_json_parser.cpp:107-109 | The text "[]]" takes the top of an empty stack |
| `LuaBuilding.BuildTree` | src/lua/luaT_json_parser.cpp:84-314 | Wherever the builder is, the events of a tree make it take exactly the value built of that tree, under the next index or the waiting key |
| `LuaTables.ExactIffFaithful` | src/lua/luaT_json_parser.cpp:17-24 | The table built is the one the tree stands for if and only if no array that stays in the result has a misplaced element |
| `LuaTables.IndexIsRight` | src/lua/luaT_json_parser.cpp:95-110 | The next index is right exactly when no element from position 127 on has had an array in it, since saved indices are signed characters |
| `LuaTables.LateArrayMisplaces` | src/lua/luaT_json_parser.cpp:102-103 | In the tree of 126 nulls, an empty array and a true, the last element comes under a wrong index |
| `LuaTables.NoLateArrays` | src/lua/luaT_json_parser.cpp:95-110 | Nothing is misplaced in an array none of whose elements from position 127 on has an array in it |
| `LuaMisplaced.LateArrayIsMisplaced` | src/lua/luaT_json_parser.cpp:316-360 | The text of 126 nulls, an empty array and a true, in brackets, is legal, and decoding leaves another table for it than the one it stands for |
| `LuaTables.ElementsMeaning` | src/lua/luaT_json_parser.cpp:182-187 | An array stands for the table of its elements that are not null, counted from one |
| `LuaTables.MembersMeaning` | src/lua/luaT_json_parser.cpp:166-175 | An object stands for the table in which the last member of each name decides, a null by removing it |
| `JsonParserObjects.Context.Callback` | src/lua/luaT_json_parser.cpp:84-314 | The callback changes the Lua stack, the keys, the place and the indices as the builder function says |
| `JsonParserObjects.DecodeText` | src/lua/luaT_json_parser.cpp:316-360 | For every text the method that feeds the parser says whether its run is defined, which it is exactly when no bracket closes nothing; then it leaves one more value on the Lua stack after a legal text, and the stack as it was after any other |
| `JsonEscapes.SingleIsSequence` | src/lua/luaT_json_parser.cpp:374-436 | The escaper decodes exactly the byte sequences of section 4 of RFC 3629, each to its code point |
| `JsonEscapes.ReadBackIffBasicPlane` | src/lua/luaT_json_parser.cpp:438-511 | For well-formed text, what the escaper writes is read back as the text up to its first zero if and only if every code point is in the Basic Multilingual Plane |
| `JsonEscapes.DefinedIffWellFormed` | src/lua/luaT_json_parser.cpp:438-511 | Escaping a string stays within the table of digits if and only if the string, up to its first zero, is well-formed |
| `JsonEscapes.LoneByteIsUndefined` | src/lua/luaT_json_parser.cpp:470-504 | A byte 0xFF, which begins no sequence, makes the code take a digit from beyond the table |
| `JsonEscapes.EmojiIsNotReadBack` | src/lua/luaT_json_parser.cpp:474-494 | The code point 1F600 is escaped and not read back, whatever follows |
| `JsonEscapesRun.ValueIsDelivered` | src/lua/luaT_json_parser.cpp:438-511 | The parser, run over an array with an escaped well-formed string as its only element, delivers that string up to its first zero if and only if it is within the Basic Multilingual Plane |
| `JsonEscapesRun.KeyIsDelivered` | src/lua/luaT_json_parser.cpp:438-511 | The parser, run over an object with an escaped well-formed string as its only name, delivers that name up to its first zero if and only if it is within the Basic Multilingual Plane |
| `JsonEscapes.CreateEscapes` | src/lua/luaT_json_parser.cpp:438-511 | For every string the loop says whether its run is defined, which it is exactly for well-formed text, and then appends the quoted, escaped string |
| `Utf8Codec.DecodeOfEncode` | deps/rapidjson-1.1.0/encodings.h:101-121 | Every scalar value is encoded as a well-formed sequence that decodes to it |
| `Utf8Codec.EncodeOfDecode` | deps/rapidjson-1.1.0/encodings.h:145-178 | Every well-formed sequence decodes to a scalar value whose encoding is that sequence |
| `Utf8Codec.EncodeTo` | deps/rapidjson-1.1.0/encodings.h:101-121 | The encoder puts out the one, two, three or four bytes of any code point |
| `Utf8Codec.Decode` | deps/rapidjson-1.1.0/encodings.h:145-178 | The decoder with its table of ranges answers yes exactly on the sequences of section 4 of RFC 3629, takes just that sequence and returns its code point |
| `Utf8Codec.Utf16RoundTrip` | deps/rapidjson-1.1.0/encodings.h:657-676 | Transcoding well-formed UTF-8 to UTF-16 and back is the identity |
| `Utf8Codec.Utf8RoundTrip` | deps/rapidjson-1.1.0/encodings.h:275-322 | Transcoding well-formed UTF-16 to UTF-8 and back is the identity |
| `XmlExpand.SkipAndExpand` | deps/rapidxml-1.13/rapidxml.hpp:1570-1718 | The loop over one buffer leaves in the written range exactly the expansion of the range it read, never writes past what it has read, and changes nothing else |
| `XmlExpand.NeverLonger` | deps/rapidxml-1.13/rapidxml.hpp:1511-1554 | What replaces a reference is shorter than it, however many digits it was written with |
| `XmlReferences.FrontAsWritten` | deps/rapidxml-1.13/rapidxml.hpp:1649-1683 | A numeric reference is replaced by the code point of the number written, or refused if it is none of section 4.1 of XML 1.0 or its number is too great, if and only if it is not mistaken: closed by a semicolon, its code in 64 bits a code point, but without a digit, with a digit that is not of its base, or with a number that 64 bits do not hold |
| `XmlReferences.WrappedIsMistaken` | deps/rapidxml-1.13/rapidxml.hpp:1650-1663 | The reference "&#x10000000000000041;" is replaced by the letter A |
| `XmlReferences.LetterIsMistaken` | deps/rapidxml-1.13/rapidxml.hpp:1664-1677 | The reference "&#1A;" is replaced by the character 20 |
| `XmlReferences.NothingIsMistaken` | deps/rapidxml-1.13/rapidxml.hpp:1664-1677 | The reference "&#;" is replaced by the character 0 |
| `XmlText.PrintThenParse` | deps/rapidxml-1.13/rapidxml_print.hpp:115-290 | Printing a document in normal form without indentation and parsing it with the default flags gives the document back |
| `XmlText.ExpandEscaped` | deps/rapidxml-1.13/rapidxml_print.hpp:47-81 | Expanding undoes escaping, for text and for both kinds of quoted value |
| `XmlText.AttributesReadBack` | deps/rapidxml-1.13/rapidxml_print.hpp:142-170 | The attributes of a start tag are read back, quotes and all |
| `XmlParser.ParsePrinted` | deps/rapidxml-1.13/rapidxml.hpp:2037-2298 | Parsing a printed document in place, the slices of the overwritten buffer spell the document that was printed, each with a terminator after it |
| `XmlParser.Parse` | deps/rapidxml-1.13/rapidxml.hpp:1382-1409 | For every zero-terminated text the destructive parser agrees with the parser as a function, and its nodes spell that parser's tree in the overwritten buffer |
| `XmlParser.ReadContents` | deps/rapidxml-1.13/rapidxml.hpp:2165-2232 | The loop over the contents of an element reads what the function reads, though terminators overwrite the bracket it goes on from |
| `XmlParser.ReadElement` | deps/rapidxml-1.13/rapidxml.hpp:2037-2079 | An element is read as the function reads it, its name terminated last |
| `XmlParser.ReadValue` | deps/rapidxml-1.13/rapidxml.hpp:2266-2295 | A quoted value is expanded and terminated in place |
| `XmlParser.ReadCData` | deps/rapidxml-1.13/rapidxml.hpp:2000-2034 | A CDATA section ends at the first end mark; it is terminated in place |
| `XmlPrinter.AppendNode` | deps/rapidxml-1.13/rapidxml_print.hpp:98-290 | The recursive printer appends the text of the node |
| `XmlPrinter.CopyAndExpandChars` | deps/rapidxml-1.13/rapidxml_print.hpp:47-81 | The loop appends the escaped text |
| `XmlTree.XmlNode.InsertNode` | deps/rapidxml-1.13/rapidxml.hpp:1123-1137 | The child is inserted before the given one or at the back, and all links describe the new child sequence |
| `XmlTree.XmlNode.RemoveNode` | deps/rapidxml-1.13/rapidxml.hpp:1170-1185 | The child is taken out and has no parent, and all links describe the sequence that is left |
| `XmlTree.ForestStays` | deps/rapidxml-1.13/rapidxml.hpp:1328-1343 | When one list of a well-linked forest has changed to another linked list, the whole forest is well linked |
| `XmlTree.Insert` | deps/rapidxml-1.13/rapidxml.hpp:1123-1137 | Inserting keeps the whole forest well linked and changes no list of children but its own |
| `XmlTree.Remove` | deps/rapidxml-1.13/rapidxml.hpp:1170-1185 | Removing keeps the whole forest well linked and changes no list of children but its own |
| `XmlTree.RemoveAll` | deps/rapidxml-1.13/rapidxml.hpp:1188-1193 | Removing all children leaves them without a parent, keeps the whole forest well linked and changes no other list of children |
| `XmlAttributes.XmlElement.InsertAttribute` | deps/rapidxml-1.13/rapidxml.hpp:1239-1257 | The attribute is inserted before the given one or at the back, and all links describe the new sequence |
| `XmlAttributes.XmlElement.RemoveFirstAttribute` | deps/rapidxml-1.13/rapidxml.hpp:1260-1273 | The first attribute is taken out in the order of writes of the source, and all links describe what is left |
| `XmlAttributes.XmlElement.RemoveAttribute` | deps/rapidxml-1.13/rapidxml.hpp:1293-1306 | The attribute is taken out and has no parent, and all links describe what is left |
| `XmlAttributes.AttributesStay` | deps/rapidxml-1.13/rapidxml.hpp:1195-1314 | When the attribute list of one element has changed to another linked list, all elements are well linked |
| `XmlAttributes.Prepend` | deps/rapidxml-1.13/rapidxml.hpp:1197-1212 | Prepending keeps all elements well linked and changes no other attribute list |
| `XmlAttributes.Append` | deps/rapidxml-1.13/rapidxml.hpp:1217-1232 | Appending keeps all elements well linked and changes no other attribute list |
| `XmlAttributes.Insert` | deps/rapidxml-1.13/rapidxml.hpp:1239-1257 | Inserting keeps all elements well linked and changes no other attribute list |
| `XmlAttributes.Remove` | deps/rapidxml-1.13/rapidxml.hpp:1293-1306 | Removing keeps all elements well linked and changes no other attribute list |
| `XmlAttributes.RemoveAll` | deps/rapidxml-1.13/rapidxml.hpp:1309-1314 | Removing all attributes leaves them without a parent, keeps all elements well linked and changes no other attribute list |
| `SocketFraming.SplitsDoNotMatter` | src/net/Socket.cpp:56-87 | However a byte stream is split into chunks, the same frames are delivered in the same order up to the first illegal length, and the same bytes are left |
| `SocketFraming.DrainConserves` | src/net/Socket.cpp:66-85 | The frames delivered and the bytes left are the bytes received |
| `SocketFraming.SocketInternal.Receive` | src/net/Socket.cpp:56-87 | The loop delivers the frames the function cuts off and keeps the rest |
| `SocketFraming.SocketInternal.Send` | src/net/Socket.cpp:94-129 | Wire, write buffer and queue together stay the same bytes in the same order, messages are released once and in order, and an empty write buffer means an empty queue |
| `SocketFraming.StepKeepsInvariant` | src/net/Socket.cpp:89-129 | Every step of every thread keeps the invariant of the sender |
| `SocketFraming.NothingStranded` | src/net/Socket.cpp:89-129 | After any interleaving of any threads, wire, bytes in hand and queue are what was pushed, in order; each message is released at most once, in order; when no call is in progress and no bytes wait, everything pushed is on the wire |
| `JsonNumbers.ReadNumber` | deps/rapidjson-1.1.0/reader.h:1133-1388 | For every text the method says whether some int of the code leaves 32 bits, exactly when the digits of the exponent and what the fraction has moved it by make one do so; else the number is read exactly as the value of its digits (Int with a sign up to 2^31, Int64 with a sign up to 2^63, Uint up to 2^32-1, Uint64 up to 2^64-1), the text of a double, or the error of the grammar |
| `JsonNumbers.ReadInteger` | deps/rapidjson-1.1.0/reader.h:1153-1237 | The accumulators hold the value of the digits, 32 bits as long as they can, then 64, then a double; none of them ever wraps; a digit beyond a full double is an error |
| `JsonNumbers.ReadFraction` | deps/rapidjson-1.1.0/reader.h:1240-1285 | All digits of the fraction are consumed, and those counted are all until 53 bits are full, then until 17 significant ones |
| `JsonNumbers.ReadNegativeExponent` | deps/rapidjson-1.1.0/reader.h:1302-1312 | The accumulator of a negative exponent is the value of its digits up to the first at which it is 214748364 or more, the further ones skipped, and so never exceeds 2147483639 |
| `JsonNumbers.ReadPositiveExponent` | deps/rapidjson-1.1.0/reader.h:1313-1321 | The bound or the accumulator leaves 32 bits exactly when the fraction or the digits make it do so before the number is found too great; else the exponent is refused exactly when its value is more than 308 and what the fraction has moved it by |
| `JsonNumbers.ReadTail` | deps/rapidjson-1.1.0/reader.h:1288-1363 | Behind any mantissa the exponent is read and joined with what the fraction has moved it by; the sum too leaves 32 bits exactly when the two are more than 2^31 below zero |
| `JsonNumbers.ShortFractionsAreSafe` | deps/rapidjson-1.1.0/reader.h:1240-1363 | Every number text that makes the code leave 32 bits has a fraction that moves the exponent by more than nine digits, and by more than 214748055 if the exponent is not negative |
| `JsonNumbers.LongFractionWraps` | deps/rapidjson-1.1.0/reader.h:1313-1321 | A zero with any longer fraction of zeros and the exponent 2147483648 makes the code leave 32 bits |
| `JsonNumbers.SumWraps` | deps/rapidjson-1.1.0/reader.h:1363 | A zero with any fraction of more than nine zeros and the exponent -2147483639 makes the sum leave 32 bits |
| `JsonNumbers.SomeNumberWraps` | deps/rapidjson-1.1.0/reader.h:1240-1363 | Some number whose fraction moves the exponent by so many digits leaves 32 bits if and only if they are more than nine; with an exponent that is not negative, if and only if they are more than 214748055 |
| `JsonNumbers.ShortTextWraps` | deps/rapidjson-1.1.0/reader.h:1363 | The 24 characters 1.0000000000e-2147483639 make the sum leave 32 bits |
| `JsonStrings.ParseStringToStream` | deps/rapidjson-1.1.0/reader.h:840-905 | The loop puts out the recursive unescaping of the string, with surrogate pairs joined and code points encoded, or gives the error of the first bad character |
| `JsonStrings.ParseUnicodeEscape` | deps/rapidjson-1.1.0/reader.h:868-884 | An escape gives its code point, a high surrogate only with a low one behind it |
| `JsonInsitu.ParseStringInsitu` | deps/rapidjson-1.1.0/reader.h:807-825 | Read in place, every string leaves its unescaping behind the opening quote with a zero after it, always before what is still to be read, or the error the stream form gives; what follows the string and what precedes it is unchanged |
| `JsonStrings.LeafIsWellBehaved` | deps/rapidjson-1.1.0/reader.h:704-905 | The scanner of scalars keeps the promises that the equivalence of the two readers rests on |
| `JsonWellFormed.ReadIsWellFormed` | deps/rapidjson-1.1.0/reader.h:840-905 | A string read from well-formed text is well-formed if and only if none of its escapes is a low surrogate with no high one before it |
| `JsonWellFormed.LoneLowIsRead` | deps/rapidjson-1.1.0/reader.h:868-884 | The string "\uDC00" is read as three bytes that are no sequence of RFC 3629 |
| `JsonDocument.ConstructorsAgree` | deps/rapidjson-1.1.0/document.h:634-670 | All four integer constructors store the same integer with the same flags and the same bits |
| `JsonDocument.StoredIsReported` | deps/rapidjson-1.1.0/document.h:1797-1803 | A stored integer is reported unchanged, by the narrowest type that holds it |
| `JsonDocument.Rebuilds` | deps/rapidjson-1.1.0/document.h:2331-2373 | Whatever the stack of a document holds, the events of a value push exactly that value |
| `JsonDocument.Document.On` | deps/rapidjson-1.1.0/document.h:2331-2373 | Each handler method pushes a value, or pops the contents of a container into the value below them |
| `JsonDocument.Document.Accept` | deps/rapidjson-1.1.0/document.h:1768-1805 | Replaying a value into a document, whatever its stack holds, pushes that value and nothing else |
| `JsonDocument.Document.DeepCopy` | deps/rapidjson-1.1.0/document.h:2405-2431 | The deep copy of a value equals it |
| `JsonParsedTree.ParseBuildsOneValue` | deps/rapidjson-1.1.0/document.h:2155-2165 | Every successful parse, whatever the flags, the scanner and the handler and in both forms of the reader, reports the events of one value and leaves a document with that value and nothing else on its stack |
| `JsonParsedTree.ValueIsTree` | deps/rapidjson-1.1.0/reader.h:588-702 | Whatever value is read, from any place and after any events, its events are the preorder events of one tree with right counts |
| `JsonParsedTree.LeafReportsScalars` | deps/rapidjson-1.1.0/reader.h:1360-1386 | The scanner reports every integer by a type that holds it |
| `JsonParsedTree.ClosingBracketCodes` | deps/rapidjson-1.1.0/reader.h:1821-1858 | For the text "]", whatever the flags and the handler, the table-driven reader reports an empty document and the recursive one an invalid value |
| `JsonWriter.WritesText` | deps/rapidjson-1.1.0/writer.h:172-237 | Wherever a value may come, in any nesting and in both styles, its events fire no assertion and put out exactly its text behind the separator of its place, leaving the levels as they were but for one more value |
| `JsonWriter.Writer.WritePrefix` | deps/rapidjson-1.1.0/writer.h:437-455 | The separator of the place is put out and the value counted |
| `JsonWriter.Writer.WritePrettyLead` | deps/rapidjson-1.1.0/prettywriter.h:190-232 | The pretty separator is put out with its indentation |
| `JsonWriter.Writer.WriteString` | deps/rapidjson-1.1.0/writer.h:345-416 | The loop puts out the quoted and escaped string |
| `JsonWriter.Writer.CloseLevel` | deps/rapidjson-1.1.0/prettywriter.h:125-165 | A level is closed, on its own line when it is not empty and the style says so |
| `JsonReadBack.WriteThenRead` | deps/rapidjson-1.1.0/writer.h:345-455 | For every value of nulls, booleans, integers, strings, arrays and objects, and both styles: the writer fires no assertion and ends complete, and both forms of the reader, whatever their flags for comments, trailing commas and stopping, read its text to the end and build an equal value |
| `JsonReadBack.ReadValue` | deps/rapidjson-1.1.0/reader.h:588-702 | A written value is read back at any place, after any events, in front of anything that can follow it |
| `JsonReadBack.IntegerReads` | deps/rapidjson-1.1.0/reader.h:1133-1388 | The decimal text of any integer of 64 bits is read as that integer |
| `JsonReadBack.BodyReads` | deps/rapidjson-1.1.0/reader.h:840-905 | Every escaped string is read back, zeros and control characters too |
| `JsonReadBack.ReportIsWritten` | deps/rapidjson-1.1.0/writer.h:134-136 | Every trace that reports a value, integers in any type that holds them, makes a fresh writer put out that text and no other and be complete |
| `JsonPretty.PrettyIsCompactErased` | deps/rapidjson-1.1.0/prettywriter.h:111-237 | Erasing the white space outside strings turns what the pretty writer puts out into what the plain writer puts out |
| `JsonPretty.PrettyErases` | deps/rapidjson-1.1.0/prettywriter.h:190-237 | So it is for every value at every depth, whatever follows |
| `JsonPointer.PrintThenParse` | deps/rapidjson-1.1.0/pointer.h:802-972 | What a pointer prints as a string, or as a URI fragment if it can, is read back as the same tokens |
| `JsonPointer.ParsePrintParse` | deps/rapidjson-1.1.0/pointer.h:802-932 | Every pointer that was read from any source prints as a string that is read back as the same pointer |
| `JsonPointer.WellFormedNamePrints` | deps/rapidjson-1.1.0/pointer.h:941-972 | A well-formed name always prints as a URI fragment |
| `JsonPointer.Read` | deps/rapidjson-1.1.0/pointer.h:802-932 | The loop over the source gives the tokens of the specification, their names in the buffer, each with a zero after it, or its error; the buffer is never written past the length of the source, on any path; and it says exactly when the character behind the end of the source is read |
| `JsonPointer.DecodePercent` | deps/rapidjson-1.1.0/pointer.h:980-1020 | One sequence is taken of the percent-encoded bytes, and is good exactly if it is a sequence of section 4 of RFC 3629; the character behind the end is read exactly if some byte the first one asks for would begin there |
| `JsonPointer.BeyondIsRefused` | deps/rapidjson-1.1.0/pointer.h:841-850 | Only the empty source and sources that are then refused have the character behind their end read |
| `JsonPointer.CutShortReadsBeyond` | deps/rapidjson-1.1.0/pointer.h:823-850 | The empty source and "#/%C3" have the character behind their end read |
| `JsonPointer.IndexIsRight` | deps/rapidjson-1.1.0/pointer.h:900-918 | An index is the value of its digits if that fits in 32 bits; a greater value is refused exactly if some digit makes the value in 32 bits smaller, or it ends as the invalid index |
| `JsonPointer.LongIndexIsMistaken` | deps/rapidjson-1.1.0/pointer.h:900-918 | The pointer "/5000000000" is read with the index 705032704 |
| `JsonPointerTree.ExistsIffResolves` | deps/rapidjson-1.1.0/pointer.h:401-447 | Creating reports that the value exists exactly when the pointer resolves, and then changes nothing |
| `JsonPointerTree.CreatedResolves` | deps/rapidjson-1.1.0/pointer.h:401-507 | After creating, the same pointer resolves, to what was there or to null, exactly when it has not appended to an array |
| `JsonPointerTree.CreateTwice` | deps/rapidjson-1.1.0/pointer.h:401-447 | Creating a second time reports that the value exists and changes nothing |
| `JsonPointerTree.OthersStay` | deps/rapidjson-1.1.0/pointer.h:401-447 | Every pointer that resolved and does not lead to a node on the way, children being told apart by name in an object and by index in an array, still resolves to an equal value, unless it leads into an array that becomes an object; and then it does not resolve |
| `JsonPointerTree.CreateRead` | deps/rapidjson-1.1.0/pointer.h:401-507 | For every pointer that has been read, on any value: creating reports that the value exists exactly when the pointer resolves, and then changes nothing; afterwards the pointer resolves, to what was there or to null, exactly when it has not appended; and then creating again changes nothing |
| `JsonPointerTree.OthersRead` | deps/rapidjson-1.1.0/pointer.h:401-447 | For any two pointers that have been read, the other one resolving and not leading to a node on the way: it still resolves to an equal value if and only if it does not lead into an array that becomes an object |
| `JsonPointerTree.TargetIsValueOrNull` | deps/rapidjson-1.1.0/pointer.h:401-447 | What creating returns is the value that was there, or null |
| `JsonPointerTree.SomethingIsLost` | deps/rapidjson-1.1.0/pointer.h:406-440 | Some pointer off the way that resolved is lost by creating if and only if an array with elements on the way becomes an object |
| `JsonPointerTree.ArrayIsLost` | deps/rapidjson-1.1.0/pointer.h:412-415 | Creating "/a" in the array [1] loses what "/0" resolved to, both as they are read |
| `JsonPointerTree.AppendedIsNotFound` | deps/rapidjson-1.1.0/pointer.h:407-411 | Creating "/-", as it is read, in an empty array appends a null that it does not resolve to |
| `JsonPointerTree.RootedDocument.CreateValue` | deps/rapidjson-1.1.0/pointer.h:401-447 | The loop changes the root as the specification says and returns the place of the value |
| `JsonPointerTree.RootedDocument.Descend` | deps/rapidjson-1.1.0/pointer.h:406-440 | One turn makes the value at a place a container and gives it the child the token asks for, where it lacks them, and changes nothing else |
| `JsonPointerTree.RootedDocument.Resolve` | deps/rapidjson-1.1.0/pointer.h:479-507 | The loop finds the place the specification resolves to, or the token that cannot be resolved |
| `Utf8Codec.Validate` | deps/rapidjson-1.1.0/encodings.h:180-206 | The validator answers what the decoder answers, takes just the sequence and puts it out unchanged |
| `XmlTree.Prepend` | deps/rapidxml-1.13/rapidxml.hpp:1076-1092 | Prepending keeps the whole forest well linked and changes no list of children but its own |
| `XmlTree.Append` | deps/rapidxml-1.13/rapidxml.hpp:1097-1112 | Appending keeps the whole forest well linked and changes no list of children but its own |
| `JsonItoa.U32ToA` | deps/rapidjson-1.1.0/internal/itoa.h:39-111 | The branches over the size of the number and the table of pairs write its decimal digits, into no more than ten characters |
| `JsonItoa.I32ToA` | deps/rapidjson-1.1.0/internal/itoa.h:113-121 | The text of a signed number is written, the least one too, into no more than eleven characters |
| `JsonItoa.U64ToA` | deps/rapidjson-1.1.0/internal/itoa.h:123-289 | The branches over the size of the number and the table of pairs write its decimal digits, into no more than twenty characters |
| `JsonItoa.I64ToA` | deps/rapidjson-1.1.0/internal/itoa.h:291-299 | The text of a signed number is written, the least one too, into no more than twenty-one characters |
| `JsonItoa.PutHigh` | deps/rapidjson-1.1.0/internal/itoa.h:174-220 | The eight conditional digits above the last eight are the decimal digits of the upper part |
| `JsonItoa.SplitSixteen` | deps/rapidjson-1.1.0/internal/itoa.h:223-285 | A number of more than sixteen digits is its upper part and twice eight digits |
| `JsonWriter.Writer.On` | deps/rapidjson-1.1.0/writer.h:172-237 | Each handler method puts out its separator and its text, and moves the levels, as the specification says |
| `JsonLayoutProof.ReadsExactlyTheLayouts` | deps/rapidjson-1.1.0/reader.h:485-702 | With any flags and in both forms the reader accepts a text, up to where it stops, if and only if the text is laid out as JSON with numbers that a double holds: any run of the four blanks (and of comments, if the flag is set) between tokens, every way to write a string and a number, a trailing comma if the flag is set; and it delivers exactly the events of the layout |
| `JsonLayoutProof.ReadsValue` | deps/rapidjson-1.1.0/reader.h:588-702 | A value that is laid out is read to its end wherever it stands, after any events, and its events are delivered |
| `JsonLayoutProof.FindsValue` | deps/rapidjson-1.1.0/reader.h:588-702 | Whatever is read as a value is laid out as one |
| `JsonFillers.FillersSkipped` | deps/rapidjson-1.1.0/reader.h:264-272 | Blanks, each of the four characters, and comments are skipped, whatever follows them |
| `JsonFillers.FillersFound` | deps/rapidjson-1.1.0/reader.h:560-586 | Whatever is skipped is blanks and comments, and maybe a line comment up to the end |
| `JsonNumerals.NumeralReads` | deps/rapidjson-1.1.0/reader.h:1133-1388 | A number written as a sign, digits, a fraction and an exponent, before anything that is none of it, is read as its exact integer in the narrowest type of its sign, or as the text of a double, or refused as too big |
| `JsonNumerals.NumeralFinds` | deps/rapidjson-1.1.0/reader.h:1133-1388 | Whatever is read as a number is written so, up to where it cannot go on |
| `JsonNumerals.PointRefused` | deps/rapidjson-1.1.0/reader.h:1244-1250 | A number whose point has no digit behind it is refused as one without a fraction |
| `JsonNumerals.ExponentRefused` | deps/rapidjson-1.1.0/reader.h:1287-1325 | A number whose exponent has no digit is refused as one without an exponent |
| `JsonLiterals.ReadsParts` | deps/rapidjson-1.1.0/reader.h:840-905 | A string written with plain characters, short escapes and escapes by number in figures of either case is read as what these mean |
| `JsonLiterals.FindsParts` | deps/rapidjson-1.1.0/reader.h:840-905 | Whatever is read as a string is written so |
| `JsonLiterals.StringRefused` | deps/rapidjson-1.1.0/reader.h:840-905 | A string whose parts are followed by a fault (no quote, a control character, an unknown escape, no four figures, a high surrogate without a low one) is refused with the code of that fault |
| `JsonLiterals.LiteralsAreParts` | src/json/json_parser.cpp:522-642 | The strings of the grammar are exactly those written so without a low surrogate that follows no high one, and stand for what their parts mean |
| `JsonFormat.PrettyIsCompactFormatted` | deps/rapidjson-1.1.0/prettywriter.h:190-237 | What the pretty writer puts out is the plain text laid out line by line: behind an opening bracket and a comma and before a closing bracket a line feed and as many indentations as brackets are open, a blank behind a colon, nothing inside an empty container |
| `JsonFormat.ValueFormats` | deps/rapidjson-1.1.0/prettywriter.h:190-237 | So it is for every value inside any open brackets, whatever follows |
| `JsonPointerPaths.PathSelects` | deps/rapidjson-1.1.0/pointer.h:479-507 | The text of a path is read as its names; the pointer selects the value it leads to, through the first member of each name and the element whose place the name spells in decimal digits; and no other, if the names have at most nine characters |
| `JsonPointerPaths.GreatestIsNoIndex` | deps/rapidjson-1.1.0/pointer.h:494-498 | The number 4294967295 selects nothing in an array, however long |
| `JsonPointerPaths.FragmentCharacters` | deps/rapidjson-1.1.0/pointer.h:790-792 | In a fragment the letters, the digits and three marks stand for themselves; any other character but the escapes is refused unless percent-encoded |
| `SchemaMeaning.ConformsMeans` | deps/rapidjson-1.1.0/schema.h:600-856 | Conformance is what the keywords say, each with its comparison and its quantifier: the limits on numbers, strings, elements and members, multiples, the schema that the element at each place and the member of each name get, required members, dependencies, allOf, anyOf, oneOf and not |
| `SchemaMeaning.TraceMeets` | deps/rapidjson-1.1.0/schema.h:1684-1733 | The streaming validator ends valid on every trace that reports a value exactly if the value meets its schema so |
| `SchemaMeaning.ArrayLimits` | deps/rapidjson-1.1.0/schema.h:870-884 | An array conforms to limits on its elements exactly if their number is neither below the one nor above the other |
| `SchemaMeaning.ObjectLimits` | deps/rapidjson-1.1.0/schema.h:828-842 | An object conforms to limits on its members exactly if their number is neither below the one nor above the other |
| `SchemaMeaning.IntegerLimits` | deps/rapidjson-1.1.0/schema.h:1099-1175 | An integer conforms to a range exactly if it is neither below its minimum nor above its maximum |
| `LuaScalars.IntegerDecodes` | src/lua/luaT_json_parser.cpp:165-186 | For every integer, decoding an array of its decimal text leaves a table that holds this integer at one |
| `LuaScalars.IntegerIsRead` | src/json/json_parser.cpp:495-498 | The decimal text of every integer is read as that integer |
| `LuaScalars.WordsDecode` | src/lua/luaT_json_parser.cpp:165-186 | Decoding an array of a word leaves a table that holds true or false, or that is empty for null |
| `LuaScalars.StringDecodes` | src/lua/luaT_json_parser.cpp:165-186 | Decoding an array of a plain string leaves a table that holds it |
| `LuaScalars.FunctionDecodes` | src/lua/luaT_json_parser.cpp:165-186 | So it does for one that begins with "function", of which the table holds what is made of it |
| `XmlLayoutProof.ParsesExactlyTheLayouts` | deps/rapidxml-1.13/rapidxml.hpp:1382-1409 | A text is parsed, up to a zero, if and only if it is a layout of nodes: any run of the four blanks between nodes, before attributes, around the equals sign and before the end of a tag, either quote, every kind of reference; and the nodes it gives are those the layout stands for, the value of an element being its first text |
| `XmlLayoutProof.ItemsRead` | deps/rapidxml-1.13/rapidxml.hpp:2165-2232 | Nodes inside an element, with any blanks around them, are parsed as the same nodes without |
| `XmlLayoutProof.ItemsFound` | deps/rapidxml-1.13/rapidxml.hpp:2165-2232 | Whatever is parsed as the contents of an element is laid out so |
| `XmlPieces.PiecesRead` | deps/rapidxml-1.13/rapidxml.hpp:1570-1718 | Characters, named references and numeric references are expanded to what they mean, up to the character that ends them |
| `XmlPieces.AttributesRead` | deps/rapidxml-1.13/rapidxml.hpp:2236-2299 | Attributes with any blanks before them, around the equals sign and behind them are parsed in order |
| `SocketFrames.FramesAreReceived` | src/net/Socket.cpp:56-87 | Any list of frames that begin with their own size in four bytes, the low one first, and any beginning of another, in any chunks: exactly these frames are delivered and that rest is kept |
| `SocketFrames.FramesAreDelivered` | src/net/Socket.cpp:66-85 | So it is for the bytes at once |
| `SocketFrames.FrameTooSmall` | src/net/Socket.cpp:66-85 | The first frame whose four bytes spell less than 16 makes the stream illegal, and the frames before it are delivered |
| `SocketFrames.BytesAreFrames` | src/net/Socket.cpp:66-85 | Any bytes are frames followed by the beginning of one or by one that is too small |

## Left out

- Allocation failure, destruction and allocators: allocation always succeeds.
- Floating point: numbers with a fraction or an exponent are kept as the text they were read from; `strtod`, `dtoa` and keywords on doubles are parameters or absent.
- The SIMD variants and 48-bit pointers of the JSON library, and in-situ reading of anything but strings.
- Error offsets of the reader: only codes and positions on success are compared.
- Leaf scanners of the reader: both forms share them, so they are a parameter of the equivalence that must move forward; `JsonNumbers` and `JsonStrings` model them for the default flags, without encoding validation, NaN and infinity, and numbers as strings.
- The value of a double: when the accumulated double leaves no room for another digit is a parameter of number reading; values with doubles are left out of the round trip.
- The writer's output filters, encodings other than UTF-8 and `RawValue`.
- The constructor of `PrettyWriter` without a stream, which leaves its format options unset, and flushing.
- Documents: string storage, allocation of members, and all editing but that of JSON pointers.
- References into a document while a JSON pointer creates values: a reference is a place in the tree, so moving of storage and aliasing are not modelled.
- JSON pointers: `Set`, `Swap`, `Erase`, comparison, and tokens supplied by the caller.
- Schema keywords `enum`, `uniqueItems`, `patternProperties` and `$ref`, compiling a schema from JSON, the document and schema pointers of error reports, and an output handler that refuses.
- Schema string and number keywords beyond ranges and lengths: parameters of the schema.
- Comments in `json_parser.cpp`, a locale whose decimal point is not a point, and characters above 255.
- Integers of the Lua builder are the decimal value of their text; the width of `sscanf` is not modelled.
- Strings that begin with "function": what is pushed for them is a parameter.
- The size of the Lua stack, and all of the Lua encoder but its string escaper.
- XML comments, declarations, processing instructions and document types: a parse that meets one has an outcome of its own; whitespace and entity flags other than the defaults.
- XML node and attribute search, and cloning.
- Parsed XML nodes hold their children as a sequence; `XmlTree` proves separately that the linked lists hold such sequences.
- Epoll, errors of sockets and a chunk that fills the whole read window: each call reads less than it asks for, and sending meets no error.
- `XmlParser.ReadNode`: does not say where a comment or declaration ends, because those nodes are left out.
- What the code does after it has become undefined (a step on an empty stack, a digit beyond the table, an integer that leaves its word): the methods that meet such a step say so and stop; `SchemaStream` and the reading of a pointer go on as a wrapping negation and a zero behind the source would make them.
- Words other than 64 bits for the codes of XML references, and XML characters that no reference may stand for, such as zero and surrogates.

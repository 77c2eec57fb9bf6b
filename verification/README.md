# Verification of the OPC UA structure codec

This project models the parts of the OPC UA binding for Lua that do real work on
data, and proves properties of them:

- **The schema-directed binary codec** (`src/OpcUA_Serializer.cpp`). `serialize`
  walks a type tree and a Lua table and writes bytes in place; `deserialize` walks
  the same tree over bytes and builds a table; `_dump` is a third walker with a
  size table of its own. All three are imperative methods here: they advance the
  two cursors `addr` and `pBuf`, and the first two push and pop the Lua stack, a
  field of the class `LuaState`. They are proved against specifications
  (`EncodeStruct`, `DecodeStruct`, `SkipStruct`, `RunStruct`), and the theorems are
  about those.
- **The operations around it** (`src/OpcUA_Serializer_Lua.cpp`, `src/Symbols.cpp`):
  encoding into a fresh 8192-byte buffer, decoding, the type cache, and the
  operations that build type trees. `Client.Reencode` is the comparison the
  repository's own test makes.
- **Path lookup** in the node graph (`src/module_node.hpp`, `src/module_node.cpp`).
- **Date printing** (`src/module_types.cpp`) and the two **table walkers**
  `_getTypeDef` and `_dump_table`.

## How the codec is modelled

An encoding is a sequence of cells, `Put(b)` for a byte that is stored and `Keep`
for one that a non-zero `Offset` or an oversized `DataSize` skips. `Overlay` is the
buffer after writing cells at an address (nothing outside the range changes);
`Matches` says that a buffer agrees with the stored ones. An encoding does not
mention an address, so it is position independent.

`StackRun.RunStruct` is `serialize` as a program on the Lua stack for every type
tree, `None` where the C code would raise a Lua error, index a string or leave
defined behaviour.
`InDomain` is a set of tables on which `RunStruct` completes and writes the
encoding (`RunWritesEncoding`). It asks for the right shape (`ShapeRule`): numbers
or nil for number fields, tables without holes for arrays, a table for every
structure that has fields; and for a writer for every leaf the table reaches
(`SupportedRule`). Missing numbers, texts and arrays are in the domain, and so are
surplus keys. Outside it `EncodeStruct` need not be what the code writes
(`Counterexamples.MissingWriterReadsOtherTable`); results about such runs are stated
of `RunStruct` itself. Integers are unbounded; each store wraps them explicitly to
its width, and a 32-bit word read into an `int` is taken as signed.

What the theorems say, in short:

- Decoding what was encoded gives `Normalize` of the table, at the address where
  the encoder stopped, for every type tree and every table of the domain, arrays of
  structures included.
- Encoding what was decoded gives the same bytes if and only if the buffer is
  canonical (flags 0 or 1, counts within the declared dimension, no structure as an
  array element, the mask `serialize` writes), provided that the decoded table
  reaches no leaf without a writer. This is the test's comparison; the code does not
  meet it for other buffers, and `Counterexamples` has inputs.
- Structures in arrays are stored under the array's name, each replacing the one
  before, so encoding a table again after reading it back gives the same bytes, and
  reading back is stable, if and only if it has none (`Lossless`). For `Plain` types,
  which have writers, no such arrays and no gaps, the value round trip keeps
  the bytes for every table of the domain, and the byte round trip for every
  canonical buffer that is consumed to its end.
- The Lua stack is restored if and only if every leaf met has a writer; each leaf
  without one leaves exactly one value behind.
- A buffer is large enough for all runs of a type with writers if and only if a static
  bound says so; encodings are prefix-free and streams of them uniquely decodable; a run writes
  0 bytes if and only if the type is weightless.
- The tables that come back unchanged are exactly those with the type's fields and no
  others, each in the literal range of its type (`ComesBackIffExact`); any other number
  comes back shifted into that range.
- `_dump` ends where `deserialize` ends, on every buffer that decodes, if and only if
  the type has no byte string (for types whose leaves all have readers and default
  sizes).
- A path lookup returns the ends of exactly the matching walks, in walk order: at each
  step the namespace and the browse name of the target are those the step asks for.
- The type cache answers with the description added last, until the next Clear.

Assumptions: little-endian layout; a 64-bit `lua_Integer`; `lua_next` visits
1..n of a sequence in ascending order; float values are opaque patterns of 4 or 8
bytes; `ValueRank` and the trace output have no effect. Where a comment in the code
differs, the code is followed: `Deserialize` is documented to return a count of Lua
results but returns an address, and leaves two values on the stack, not one.

## Model

| member | source | states |
|---|---|---|
| RoundTrip.ValueRoundTrip | src/OpcUA_Serializer.cpp:97-187 | on any buffer holding the encoding of a table of the domain, with any bytes around it, decoding gives the table's normal form and ends where the encoding ends; for every type tree |
| RoundTrip.FieldRoundTrip | src/OpcUA_Serializer.cpp:118-180 | the same for one field whose value is in the domain, so reader and writer cursors agree after every field |
| RoundTrip.ElemsRoundTrip | src/OpcUA_Serializer.cpp:136-176 | the same from any element index of an array on, for elements in the domain, leaves and structures |
| RoundTrip.ElemRoundTrip | src/OpcUA_Serializer.cpp:137-175 | the same for one element in the domain, nested structure or leaf |
| Leaves.LeafRoundTrip | src/OpcUA_Serializer.cpp:265-312 | each registered reader returns the value its writer stored, wrapped to the width, and advances by the same amount |
| Leaves.LeafByteRoundTrip | src/OpcUA_Serializer.cpp:43-58 | rewriting a decoded leaf reproduces its bytes exactly unless it is a flag with a byte above 1 |
| Leaves.LeafReadbackStable | src/OpcUA_Serializer.cpp:265-312 | a value read back is accepted again, is read back unchanged and stored as the same bytes |
| Leaves.NumberComesBack | src/OpcUA_Serializer.cpp:276-288 | a number read back lies in the literal range of its type, differs from the one sent by a multiple of the size of that range, and is the one sent if and only if that was in range; a missing number comes back as 0 |
| Leaves.OthersComeBack | src/OpcUA_Serializer.cpp:265-312 | flags, floats and texts come back as sent; other values come back as false, as zero or as the empty text, and a number in a text field as its decimal text |
| Leaves.StoredNumber | src/OpcUA_Serializer.cpp:276-288 | a number occupies DataSize cells: 1, 2 or 4 stored bytes, lowest first, the others skipped |
| Leaves.StoredFlag | src/OpcUA_Serializer.cpp:265-275 | a flag is stored as 1 for true and as 0 for every other value |
| Leaves.StoredText | src/OpcUA_Serializer.cpp:297-312 | a text is stored behind its length, a word with the lowest byte first |
| Leaves.ReadNumber | src/OpcUA_Serializer.cpp:46-54 | a number read is the one in the literal range of its type with the bytes found, and DataSize is the advance |
| Leaves.ReadOthers | src/OpcUA_Serializer.cpp:45-60 | a flag read is whether its byte is not 0, a float is its pattern, and a text what stands behind its length |
| Leaves.NothingStoredIff | src/OpcUA_Serializer.cpp:62-91 | nothing is stored for exactly the six types without a writer, and reading them gives the error text without advance |
| ExactTables.ComesBackIffExact | src/OpcUA_Serializer.cpp:97-187 | a table of the domain of a well-formed type comes back unchanged if and only if it has the fields of the type and no others, each a value in the literal range of its type, arrays within their dimension, arrays of structures empty |
| ExactTables.ExactInDomain | src/OpcUA_Serializer.cpp:480-599 | every such table of a well-formed type is in the domain |
| ByteRoundTrip.ByteRoundTrip | src/OpcUA_Serializer.cpp:97-187 | a decoded table that reaches no leaf without a writer is in the encoder's domain, and its encoding matches the buffer it came from if and only if the buffer is canonical; then it has the consumed length |
| ByteRoundTrip.LeafElemsAreSequence | src/OpcUA_Serializer.cpp:162-165 | a decoded array of leaves is a table with exactly the keys 1..count, each with a value of the shape its type takes |
| ByteRoundTrip.HeaderByteRoundTrip | src/OpcUA_Serializer.cpp:494-503 | the bytes before the fields are reproduced exactly when the stored mask is the one the writer uses |
| NormalForm.CanonicalIffLossless | src/OpcUA_Serializer.cpp:480-599 | a buffer holding the encoding of a table of the domain is canonical if and only if the table has no structure as an array element |
| NormalForm.ReencodeIffLossless | src/OpcUA_Serializer.cpp:136-185 | for a table of the domain of a well-formed type, encoding the table read back gives the same cells if and only if no structure was an array element |
| NormalForm.NormalizeInDomain | src/OpcUA_Serializer.cpp:97-187 | for well-formed types, the table read back from a table of the domain is in the domain again |
| NormalForm.NormalizeIdempotentIff | src/OpcUA_Serializer.cpp:136-185 | for a table of the domain of a well-formed type, reading back twice gives the same table as once if and only if no structure was an array element |
| NormalForm.SamePlaceSameValue | src/OpcUA_Serializer.cpp:480-599 | two encodings found at one place are equally long and have the same normal form |
| NormalForm.PrefixFree | src/OpcUA_Serializer.cpp:480-599 | no encoding is a proper prefix of another one of the same type |
| NormalForm.EncodingIdentifiesNormalForm | src/OpcUA_Serializer.cpp:480-599 | two tables of the domain of a well-formed type, both without structures as array elements, have the same encoding if and only if they have the same normal form |
| NormalForm.StreamsDecodeUniquely | src/OpcUA_Serializer.cpp:480-599 | concatenated encodings of equal length at one place hold equally many tables with the same normal forms, for every type that takes bytes; for the others, if equally many are known |
| Bounds.RunBound | src/OpcUA_Serializer.cpp:517-538 | no completed run, on any stack, writes more than the static bound of its type |
| Bounds.StructBound | src/OpcUA_Serializer.cpp:517-538 | the encoding of a table of the domain is never longer than that bound |
| Bounds.FullStructAttains | src/OpcUA_Serializer.cpp:517-538 | for a well-formed type with writers, the table that fills all arrays is in the domain and has exactly the bound as its length, or exceeds any text length where there is no bound |
| Bounds.FitsIffBounded | src/OpcUA_Serializer_Lua.cpp:35-37 | for a well-formed type with writers, all completed runs fit a buffer of a given size if and only if the type has a bound and it is at most that size |
| Bounds.RunZeroIffWeightless | src/OpcUA_Serializer_Lua.cpp:37-48 | a completed run writes nothing exactly for types without skipped bytes, arrays and leaves with a writer, whatever the stack |
| Bounds.ZeroIffWeightless | src/OpcUA_Serializer.cpp:495-598 | the encoding of a table of the domain is empty exactly for those types |
| Bounds.CoverageIffTight | src/OpcUA_Serializer.cpp:495-503 | for a table of the domain, every byte of the range is written if and only if each Offset and DataSize met leaves no gap |
| Bounds.MaskMarksFields | src/OpcUA_Serializer.cpp:463-478 | the mask has a bit for each field, and no other bit below 32 if and only if the number of fields is not 31 |
| Bounds.MaskInBuffer | src/OpcUA_Serializer.cpp:496-500 | for a structure with optional fields and a non-zero Offset, the same holds of the word a reader finds in front of the encoded fields |
| Bounds.HeaderCells | src/OpcUA_Serializer.cpp:494-503 | in front of the encoded fields Offset cells stand, of which the first four are stored for a structure with optional fields, and none for any other type |
| Bounds.RunHeaderCells | src/OpcUA_Serializer.cpp:494-503 | the same for any completed run on any stack |
| Bounds.FieldPlace | src/OpcUA_Serializer.cpp:504-596 | each field starts where the fields before it end and encodes what the table holds under its name |
| Bounds.ArrayCells | src/OpcUA_Serializer.cpp:517-538 | an array starts with the smaller of its length and its first dimension as a word, lowest byte first; that many elements follow |
| Bounds.ElemPlace | src/OpcUA_Serializer.cpp:540-590 | element k stands behind the elements before it and encodes the entry with index k + 1 |
| StackRun.StackGrowsByMisses | src/OpcUA_Serializer.cpp:539-595 | for any type and stack, a run keeps all that was on the stack and adds exactly one value per leaf without a writer |
| StackRun.RunWritesEncoding | src/OpcUA_Serializer.cpp:480-599 | on the domain the stack program completes, writes the encoding of the table on top and restores the stack |
| StackRun.PastTheEnd | src/OpcUA_Serializer.cpp:543-563 | where lua_next finds no further element, the next key and a nil are put on the stack instead |
| StackRun.MissesIffUnsupported | src/OpcUA_Serializer.cpp:575-583 | a completed run on a table of the right shape met no missing writer if and only if every leaf reached by the table has one |
| StackRun.NeutralIffSupported | src/OpcUA_Serializer.cpp:539-595 | a completed run on a table of the right shape restores the stack if and only if every leaf reached by the table has a writer |
| Bytes.NoGapForgets | src/OpcUA_Serializer.cpp:576-588 | an encoding without gaps gives the same bytes whatever the buffer held before |
| Bytes.LittleEndianAt | src/OpcUA_Serializer.cpp:276-288 | byte i of a stored word is the one with weight 256 to the power of i, for negative numbers in two's complement |
| Serializer.WriteLeaf | src/OpcUA_Serializer.cpp:265-312 | stores the bytes of the value on top at the cursor, touches nothing else, and returns the length to advance |
| Serializer.WriteOptStruct | src/OpcUA_Serializer.cpp:473-478 | stores the mask word at the cursor and touches nothing else |
| Serializer.Serialize | src/OpcUA_Serializer.cpp:480-599 | from any start address: the cells of the stack program and nothing outside them are written, the stack is the program's, the address returned is the start plus the length, and both cursors agree throughout |
| Serializer.SerializeField | src/OpcUA_Serializer.cpp:504-596 | the same for one field of the table on top |
| Serializer.SerializeArray | src/OpcUA_Serializer.cpp:508-538 | the same for an array: two values pushed before the loop, two popped after it |
| Serializer.SerializeElems | src/OpcUA_Serializer.cpp:540-590 | the same for the element loop, which keeps table and key on the stack |
| Serializer.SerializeElem | src/OpcUA_Serializer.cpp:564-589 | the same for the value on top, nested structure or leaf |
| Deserializer.ReadLeaf | src/OpcUA_Serializer.cpp:149-161 | pushes the decoded leaf and returns the length to advance |
| Deserializer.Deserialize | src/OpcUA_Serializer.cpp:97-187 | a nested call adds one entry, name to decoded table, to the table on top; a root call pushes name and table; nothing below changes and the address is the decoder's |
| Deserializer.DeserializeField | src/OpcUA_Serializer.cpp:118-180 | one field adds one entry with its decoded value to the table on top |
| Deserializer.DeserializeElems | src/OpcUA_Serializer.cpp:136-176 | the element loop turns the empty table on top into the decoded array |
| Dumper.Dump | src/OpcUA_Serializer.cpp:641-683 | returns the address of the walk by its own size table, both cursors agreeing |
| Dumper.SizesAreWidths | src/OpcUA_Serializer.cpp:399-422 | the size table has the default width of every type without a length word except a GUID, 8 for the 64-bit types, and the reader's width where there is one; for byte strings and GUIDs it has 0 |
| Dumper.SkipLeafAgreesIff | src/OpcUA_Serializer.cpp:399-422 | on a leaf the size table advances like the reader if and only if the type is not among those where the tables differ, or is a fixed string whose length word wraps the size to 0 |
| Dumper.DumpFollowsDeserialize | src/OpcUA_Serializer.cpp:641-683 | without such leaves the third walker ends where the decoder ends, on every buffer that decodes |
| DumpAgreement.AgreesIffFree | src/OpcUA_Serializer.cpp:399-422 | for types whose leaves all have readers and default sizes, the third walker ends where the decoder ends on every buffer that decodes if and only if the type has no byte string |
| DumpAgreement.StructDiverges | src/OpcUA_Serializer.cpp:641-683 | for any type with a byte string, a buffer on which the decoder ends beyond the third walker |
| Client.SerializeTable | src/OpcUA_Serializer_Lua.cpp:13-54 | for any completed run: failure exactly for invalid and for weightless types, else bytes that match the cells of the run; the stack is the run's without the table |
| Client.SerializeRegular | src/OpcUA_Serializer_Lua.cpp:28-53 | on the domain: bytes matching the encoding on an unchanged stack, failure exactly for weightless types |
| Client.DeserializeTable | src/OpcUA_Serializer_Lua.cpp:67-75 | returns the decoded table and leaves the root's name on the stack |
| Client.SendAndReceive | src/OpcUA_Serializer_Lua.cpp:13-75 | encoding a table of the domain in the fresh buffer and decoding the bytes returns its normal form, for every type that takes bytes |
| Client.ReencodedEquals | test/test_client_extensionobj.lua:63-71 | for well-formed types with writers and without gaps, re-encoded bytes equal the raw bytes if and only if these are canonical and consumed to the end |
| Client.Reencode | test/test_client_extensionobj.lua:63-71 | the test's decode, encode and compare, for a known, valid, well-formed type with writers and without gaps and at most 8192 re-encoded bytes: it reports a match if and only if the raw data is non-empty, canonical and consumed to the end |
| PlainTypes.PlainTypesKeepValues | src/OpcUA_Serializer.cpp:97-187 | for plain types every table of the domain keeps its encoding and its normal form through a trip, and no byte of the range is left unwritten |
| PlainTypes.PlainTypesKeepBytes | src/OpcUA_Serializer.cpp:480-599 | for plain types a fully consumed buffer is reproduced if and only if it is canonical |
| Schemas.ThroughoutGivesRule | src/OpcUA_Serializer.cpp:480-599 | a property of every node of a type tree holds at every node any walk of any table reaches |
| Schemas.DefaultLeafIsPlain | src/Symbols.cpp:101-128 | a leaf set up with the default size is wide enough for its writer, and plain exactly when its type has one |
| Schemas.AddChildKeepsPlain | src/Symbols.cpp:152-158 | adding a plain field under a new name keeps a type tree well formed and plain |
| TypeDB.TypeCache.FindTypeByName | src/Symbols.cpp:58-62 | returns the node added last under the name since the last Clear, else the invalid default, and records the lookup |
| TypeDB.TypeCache.HasTypeByName | src/Symbols.cpp:64-67 | true exactly when the name was added or looked up since the last Clear |
| TypeDB.TypeCache.Add | src/Symbols.cpp:69-73 | afterwards the maps hold what the extended log says |
| TypeDB.TypeCache.Clear | src/Symbols.cpp:75-78 | afterwards no type is known, while the variables keep theirs |
| TypeDB.MentionedIff | src/Symbols.cpp:58-78 | a name is known if and only if there is an Add or a Find of it with no later Clear |
| TypeDB.FindMakesKnown | src/Symbols.cpp:58-62 | a lookup that misses makes the name known with an invalid description |
| TypeDB.LastAddedIff | src/Symbols.cpp:69-78 | a description is the current one if and only if some Add stored it under the name and no later call is a Clear or another Add of that name |
| TypeDB.LastTypeOfIff | src/Symbols.cpp:69-78 | the type recorded for a variable is the one of its last Add, whatever Clear did since |
| NodePaths.QualifiedQuery | src/module_node.cpp:15-29 | a name after a decimal number and a colon is searched in the namespace of that number, held to the range of an int |
| NodePaths.PlainQuery | src/module_node.cpp:15-29 | a name without a colon is searched in the namespace of its own parent |
| NodePaths.PaddedIsRead | src/module_node.cpp:15-29 | blanks before the namespace number, a plus sign, and anything after its digits do not change it |
| NodePaths.CStringIs | src/module_node.cpp:15-29 | the name searched ends at the first NUL, if there is one |
| NodePaths.NodeFinder.Visit | src/module_node.cpp:31-44 | appends the target exactly when namespace and browse name fit, in either reference direction |
| NodePaths.SelectedPlace | src/module_node.cpp:31-44 | each reference adds one node, behind those of the references before it, exactly if the namespace and the browse name of its target are those asked for |
| NodePaths.SelectedFit | src/module_node.cpp:31-44 | every node selected has the namespace and the browse name asked for |
| NodePaths.ChildrenFit | src/module_node.hpp:231-249 | the children found are nodes of the namespace and name asked for, and every reference to such a node contributes one |
| NodePaths.ReachedIs | src/module_node.hpp:236-246 | a node found has the target and the type of its reference, and the class the reader gives, or that of an object |
| NodePaths.AppendChildren | src/module_node.hpp:231-249 | appends the matching children in callback order and leaves every class in the list as the reader gives it |
| NodePaths.GetChild | src/module_node.hpp:250-264 | returns the matching children, or not found exactly when there is none |
| NodePaths.AppendAllChildren | src/module_node.hpp:265-269 | concatenates the children of all nodes in order |
| NodePaths.GetChildByPath | src/module_node.hpp:270-292 | the frontier search: the last level, or the name of the first empty one |
| NodePaths.WalksEnumerate | src/module_node.hpp:231-292 | the list of walks contains exactly the walks that match the names, each once, in left-to-right order |
| NodePaths.LevelsAreEnds | src/module_node.hpp:270-292 | the frontier after all names is the list of the walks' end nodes, in that order and with that multiplicity |
| NodePaths.PathLookup | src/module_node.hpp:270-292 | the lookup returns the ends of all walks, or names the first level that no walk reaches |
| NodePaths.PathsCompose | src/module_node.hpp:270-292 | looking up p + q is looking up p and then q from each result in order |
| NodePaths.FoundClassesAreRead | src/module_node.hpp:236-246 | nodes found by a non-empty path have the class the reader reports |
| NodePaths.GetChildren | src/module_node.hpp:213-230 | returns the targets of the forward references in order, with their classes read |
| NodePaths.ForwardPlace | src/module_node.cpp:5-13 | each forward reference adds one node with its class as read, or unspecified; an inverse one adds none |
| NodePaths.FoundAmongChildren | src/module_node.cpp:5-13 | a forward reference gives the same node to getChild and getChildren exactly when its class can be read |
| DateTime.PrintNumber | src/module_types.cpp:30-36 | stores the last decimal digits of the number at the position and touches nothing else |
| DateTime.ParseOfDigits | src/module_types.cpp:30-36 | those digits read as the number modulo the power of ten |
| DateTime.DigitAt | src/module_types.cpp:30-36 | each place holds the character of the digit with its power of ten |
| DateTime.DateTimeToString | src/module_types.cpp:38-63 | fills the buffer to the 31-character layout of nine fields and eight separators |
| DateTime.LayoutTiles | src/module_types.cpp:45-61 | each field and separator stands at its own index range of the string |
| DateTime.ParseOfLayout | src/module_types.cpp:38-63 | the parser recovers every field, cut to its digits |
| DateTime.RecoveredIffInRange | src/module_types.cpp:38-63 | a struct is recovered if and only if every field fits its digits |
| DateTime.SameStringIff | src/module_types.cpp:38-63 | two structs print alike if and only if their cut fields agree |
| TableWalkers.GetTypeDef | src/OpcUA_Serializer.cpp:715-750 | a nested call adds one entry to the table on top, a root call pushes name and table; nothing else changes |
| TableWalkers.TypeDefEntries | src/OpcUA_Serializer.cpp:715-750 | the table has one entry per field describing it, and otherwise only the type's own entries |
| TableWalkers.TypeDefInfo | src/OpcUA_Serializer.cpp:685-713 | a valid type has its type name, encoding, raw type code, flags and offset under the five names, unless a field has one of these |
| TableWalkers.LeafDefInfo | src/OpcUA_Serializer.cpp:685-744 | a field that is no structure is described by those five entries alone, or by none if it is not valid |
| Symbols.RawTypeDetermines | src/Symbols.cpp:96-99 | the raw code determines kind and array mark, bit by bit, and is 0 exactly for a plain undefined leaf |
| TableWalkers.DumpTable | src/OpcUA_Serializer.cpp:776-826 | for any index and nesting the stack is restored, and the lines printed are those of a depth-first walk, a boolean always shown as false |
| TableWalkers.LinesAreNested | src/OpcUA_Serializer.cpp:776-826 | the lines printed are properly nested: the level rises by one from an opening line to its closing line, and ends where it began |
| TableWalkers.OwnLines | src/OpcUA_Serializer.cpp:790-818 | at its own level a table has an opening line for each key of a nested table and an entry for each other key, and no further line; all others are further in |
| TableWalkers.FlatLines | src/OpcUA_Serializer.cpp:790-818 | a table without nested ones has one entry per key in the order of lua_next |
| TableWalkers.ShownValues | src/OpcUA_Serializer.cpp:804-816 | numbers and texts are shown as they are, both booleans as false |
| TableWalkers.IndexFromBothEnds | src/OpcUA_Serializer.cpp:776-787 | a positive and a negative index name the same value of the stack |
| Counterexamples.FlagByteChanges | src/OpcUA_Serializer.cpp:45-45 | a flag byte of 2 is re-encoded as 1 |
| Counterexamples.StructArrayIsLost | src/OpcUA_Serializer.cpp:137-143 | an array of one structure is read back under the array's name, counts as empty and encodes differently |
| Counterexamples.MissingWriterLeaksValue | src/OpcUA_Serializer.cpp:575-583 | a 64-bit field leaves its value on the stack and the next field is then looked up in it |
| Counterexamples.MissingWriterReadsOtherTable | src/OpcUA_Serializer.cpp:563-583 | with a field without a writer before it, a field is written from that field's value instead of from the table |
| Counterexamples.MaskOf31Fields | src/OpcUA_Serializer.cpp:463-471 | with 31 fields bit 31 of the mask is set |
| Counterexamples.DumpStopsAtByteString | src/OpcUA_Serializer.cpp:417-421 | the third walker stays in place at a byte string, the reader moves on |

## Left out

- Float arithmetic: a float field takes nil or the stored pattern; a Lua integer in a float field, and rounding between double and float, are outside the domain.
- Lua errors: a string, boolean or table where a number is expected, and an out-of-range number in a 32-bit field (undefined conversion in C++), are outside the domain; so are numeric strings, which Lua would convert.
- Texts of numbers at or above 10^14 in magnitude, which Lua prints in scientific form, and of floats.
- Arrays without dimensions: the code reads the first element of an empty vector, so they are outside the domain.
- Tables with holes, arrays mixing indices and names, and numbers where an array is expected.
- Type trees whose DataSize is below the width of the type, or whose Offset is 1 to 3 on a structure with optional fields: neighbouring fields would overlap. Negative offsets.
- Reads and writes outside the buffer: the code checks no bounds, so a buffer that decodes, or that is large enough, is a precondition of the methods.
- Dumper.DumpFollowsDeserialize: states a sufficient condition only where leaves without a reader occur; their sizes can cancel out. The exact condition for types whose leaves have readers is DumpAgreement.AgreesIffFree.
- Uninitialised members: a default-constructed type has size 0 here, also after Set with an explicit size, which the code ignores; and a namespace prefix of blanks only, which leaves the searched namespace unset, reads as 0.
- Texts of 2^31 - 4 bytes or more, whose length plus 4 does not fit an int.
- The digits of printed numbers in the table dump.
- Allocation failure in the date printer, and the conversion of a timestamp into date fields, which is library code.
- Server access: references, browse names and classes are given as values; status codes other than success appear as missing entries.
- How a client reads type trees from a server: `src/module_client.cpp` and `src/OpcUA_IOThread.cpp` are not part of this model. Type trees are values; AddChild appends a finished subtree, where the code returns a reference to fill in.
- TypeNode_Proxy::deserialize, whose validity test names a function without calling it, and asTable, which wraps the modelled _getTypeDef.
- The two-argument _dump, log text, and primitives that are not registered.
- The IO thread, subscriptions, server and enum bindings: forwarding without logic of their own.

# Bysant, staging tables, cdb, yajl and openaes in Dafny

A model, with proofs, of the components of the repository that turn structured
data into bytes and back, and of three smaller ones:

- **Bysant** (`libs/bysant/bysants.c`, `bysantd.c`): a binary serializer and a
  deserializer, each with its own stack of sixteen frames. Opcodes depend on the
  context of the open frame. The serializer is transactional: a writer may take
  any part of the data, and an interrupted call is tried again.
- **Staging tables** (`sdb_serialize.c`, `sdb_write.c`, `sdb_read.c`): cells kept
  in a list of 64 KiB chunks, and a table serializer that can be interrupted at
  any call and resumed, with three forms of columns.
- **cdb** (`libs/cdb`): a constant database file with 256 open-addressing hash
  tables, its builder, its lookups on the bytes of the file, and its text form.
- **yajl** (`libs/yajl`): a streaming JSON lexer and pushdown parser, the string
  escaper, the generator and the tree builder.
- **AES** (`libs/openaes`): key expansion, the block cipher and its inverse, and
  messages with a header, an IV, padding and optional chaining.
- **SHA-1** (`libs/sha1`), fed in parts, and the growing ring buffer
  `libs/common/pointer_list.c`.

`dafny verify dfyconfig.toml` checks the whole project.

## How it is organised

Code that changes things in place is modelled by classes, arrays and loops, each
method proved against a function; the properties are then lemmas about those
functions.

| files | what they hold |
|---|---|
| `Bytes`, `Numerals`, `Words`, `Arithmetic` | bytes, decimal numerals, the digits of 32-bit words, division facts |
| `BysantCommon`, `BysantEncoding`, `BysantDecoding` | frames, opcode tables, what one call emits and what one read gives |
| `BysantValues`, `BysantRoundTrip` | decoding undoes encoding: values, then whole runs by a simulation between the two stacks |
| `BysantOpcodes` | the bytes of calls at the ends of every opcode family |
| `BysantStory` | which runs are accepted, and as what they read back, on the calls alone |
| `BysantSizes` | the countdown of every container against an independent count |
| `BysantSerializer`, `BysantRetry` | the serializer in place over an arbitrary writer, and retrying |
| `BysantReader` | the deserializer in place |
| `SdbColumns`, `SdbLossless` | the calls a table is serialized to, and when the compact columns lose nothing |
| `SdbMeaning` | what a table is serialized to, on its cells alone |
| `SdbSerializer`, `SdbInterrupted` | the resumable serializer; whole runs of it, whatever is refused |
| `SdbStore`, `SdbCells` | the chunk list, written and read; Bysant values as cells |
| `CdbFormat`, `CdbTable`, `CdbImage` | words and hash, open addressing, the bytes of the file |
| `CdbFind`, `CdbLookup`, `CdbMake`, `CdbText` | lookups, their correctness, the builder, dump and make |
| `CdbExample` | a file with one record, byte by byte |
| `YajlLex`, `YajlLexer` | tokens of a text in one piece; the streaming lexer |
| `YajlParse`, `YajlParser` | the parser on a text in one piece; the streaming parser |
| `YajlTokens`, `YajlGrammar` | the grammar of RFC 4627: which tokens the lexer finds, which texts the parser accepts |
| `YajlString`, `YajlQuoted`, `YajlNumber`, `YajlLexeme` | escaping, quoted strings, integers, written tokens |
| `YajlUnicode` | what an escaped string means, and when the decoder gives that |
| `YajlTrailing` | what may follow a complete value |
| `YajlGen`, `YajlMirror`, `YajlTree`, `YajlRoundTrip` | the generator, the parser on its output, the tree builder, the round trip of trees |
| `YajlFormat` | escapes and layout of what is written |
| `YajlSpoiled`, `YajlIntact` | exactly which runs of calls and which trees come back |
| `AesBox`, `AesField`, `AesCipher`, `AesKey` | the substitution tables, the field and its column matrices, the block cipher and its inverse, the key schedule |
| `AesInverse`, `AesStandard` | the substitution table as inverses in the field; rounds, key schedule and chaining by their places |
| `AesMessage`, `AesBlock`, `AesContext` | sealed messages and sessions; the block operations in place; the context |
| `Sha1`, `Sha1Standard` | the digest of a message in parts; what the parts of its function are |
| `PointerList` | the ring buffer |

## Where the code and what is said about it differ

The model follows the code; each of these is stated by the member named.

- A null is accepted inside a chunked string, and a string above the large limit
  is accepted at the last stack level; no reader can follow either
  (`BysantRoundTrip.RoundTripExactly`, `BysantRoundTrip.NullInChunked`).
- In the unsigned-or-string context an integer loses its high bits
  (`BysantRoundTrip.TruncatedInteger`).
- The length -1 is documented as "no verification", but a long collection header
  then fails (`BysantRoundTrip.LongHeaderUnchecked`).
- An interrupted opening of a container is checked against its own half-filled
  frame when it is tried again (`BysantRetry.RetryExactly`,
  `BysantRetry.ChunkedNeverRetries`).
- A list column whose closing was refused cannot be resumed
  (`SdbInterrupted.SerializeInterrupted`, `SdbInterrupted.ClosingRefused`).
- A negative quotient of a deltas vector is rounded down without the correction that a
  positive one gets (`SdbMeaning.DeltaIntegerIs`).
- A cell that begins in the last two bytes of the last chunk cannot be read even
  when it is complete (`SdbStore.StoreAndRead`).
- The vertical tab and the form feed are taken as spaces (`YajlTokens.SpacesAre`).
- The smallest 64-bit integer is printed but not parsed
  (`YajlNumber.PrintedParses`).
- An escaped high surrogate that is not followed directly by an escaped low one takes
  away the character after it, or merges with the escape after it; an escaped low
  surrogate alone is written as three bytes that are not UTF-8
  (`YajlUnicode.DecodeExactly`, `YajlUnicode.CharacterLost`).
- The product in `yajl_parse_integer` is made before it is checked and can overflow
  (`YajlNumber.OverflowExactly`).
- `yajl_gen_map_close` and `yajl_gen_array_close` do not check which container is
  open; a run comes back exactly when all its closings match
  (`YajlSpoiled.RunExactly`, `YajlSpoiled.ArrayClosedAsMap`).
- The end of a parse is documented to ensure that the whole text was consumed; a
  string or a comment without an end is not noticed (`YajlTrailing.TrailingExactly`,
  `YajlTrailing.UnreportedGarbage`).
- `PointerList_Remove` loses an element when the elements it moves reach around the
  end of the buffer (`PointerList.List.Remove`, `PointerList.RemovalLoses`).
- A text of two blocks whose header claims padding makes decryption read the byte
  before its buffer (`AesMessage.BarePadText`, `AesMessage.BarePadExactly`).
- The debugging options are compiled in, because the macro that should turn them
  off is defined as zero and tested with `#ifdef`: decryption takes the options 4, 8
  and 12, which set no mode (`AesMessage.SealedBack`).
- Strings in a parsed tree end at their first zero byte
  (`YajlIntact.TreeExactly`, `YajlIntact.StringCut`).

## Model

| member | source | states |
|---|---|---|
| `BysantValues.IntegerRoundTrip` | libs/bysant/bysants.c:162-192 | decoding the bytes of any 64-bit integer in the global or number context gives the integer and its exact length, whatever follows |
| `BysantValues.IntegerPrefix` | libs/bysant/bysantd.c:170-221 | on a strict prefix of at least one byte the decoder answers minus the full length |
| `BysantValues.UnsignedRoundTrip` | libs/bysant/bysants.c:194-213 | decoding the bytes of any 32-bit unsigned integer gives it back with its exact length |
| `BysantValues.UnsignedPrefix` | libs/bysant/bysantd.c:455-488 | on a strict prefix of at least one byte of an unsigned integer the decoder answers minus the full length |
| `BysantValues.Int32RoundTrip` | libs/bysant/bysants.c:621-630 | every 32-bit integer of the fixed-width context comes back, the escaped value included |
| `BysantValues.StringRoundTrip` | libs/bysant/bysants.c:289-309 | every string up to the large limit is decoded to itself with its exact length, in both contexts with strings |
| `BysantValues.StringPrefix` | libs/bysant/bysantd.c:272-303 | on a strict prefix of at least three bytes of a string the decoder answers minus the full length |
| `BysantOpcodes.GlobalTiny` | libs/bysant/bysant_common.c:57-64 | the bytes of the integers at both ends of the one-byte range of the global context |
| `BysantOpcodes.GlobalSmall` | libs/bysant/bysant_common.c:57-64 | the bytes of the integers at the four ends of the two-byte ranges, those below zero with opcodes of their own |
| `BysantOpcodes.GlobalMedium` | libs/bysant/bysant_common.c:57-64 | the same for three bytes |
| `BysantOpcodes.GlobalLarge` | libs/bysant/bysant_common.c:57-64 | the same for four bytes |
| `BysantOpcodes.GlobalWide` | libs/bysant/bysants.c:162-192 | every wider integer of the global context: one opcode and four bytes, or another and eight, the highest first |
| `BysantOpcodes.NumberWide` | libs/bysant/bysants.c:162-192 | the same in the number context |
| `BysantOpcodes.NumberTiny` | libs/bysant/bysant_common.c:66-73 | the bytes of the integers at both ends of the one-byte range of the number context |
| `BysantOpcodes.NumberLarge` | libs/bysant/bysant_common.c:66-73 | the same at the four ends of the four-byte ranges |
| `BysantOpcodes.KeyStrings` | libs/bysant/bysant_common.c:50-55 | the same for the strings of the unsigned-or-string context as for the global one |
| `BysantOpcodes.Unsigned` | libs/bysant/bysants.c:194-213 | the bytes of the unsigned integers at both ends of every range |
| `BysantOpcodes.FixedWidth` | libs/bysant/bysants.c:362-384 | the null tokens of all contexts, and the escape of the integer that has the pattern of null |
| `BysantOpcodes.GlobalStrings` | libs/bysant/bysant_common.c:44-49 | the bytes of the shortest and longest strings with their length in the opcode, and on one more byte |
| `BysantOpcodes.GlobalPiecedStrings` | libs/bysant/bysants.c:289-309 | every string longer than that goes in pieces after its opcode, up to an empty piece |
| `BysantOpcodes.ChunkHeaders` | libs/bysant/bysants.c:274-287 | pieces of at most 65535 bytes, each after its length, the higher byte first |
| `BysantOpcodes.GlobalList` | libs/bysant/bysant_common.c:19-24 | the bytes of list headers: empty, small, long, variable, each with and without a context for the children |
| `BysantOpcodes.GlobalMap` | libs/bysant/bysant_common.c:25-30 | the same for maps |
| `BysantOpcodes.ListmapList` | libs/bysant/bysant_common.c:31-36 | the same for lists in the context of lists and maps |
| `BysantOpcodes.ListmapMap` | libs/bysant/bysant_common.c:37-42 | the same for maps in the context of lists and maps |
| `BysantOpcodes.Objects` | libs/bysant/bysants.c:449-464 | the bytes of object headers: sixteen classes in the opcode, the others after it |
| `BysantRoundTrip.HeaderRoundTrip` | libs/bysant/bysants.c:331-360 | every list or map header, fixed or variable, typed or not, short or long, is decoded to its size, element context and frame |
| `BysantRoundTrip.IntItem` | libs/bysant/bysants.c:606-638 | the integer encoding chosen by the context of the open frame is decoded by the routine of that context |
| `BysantRoundTrip.NullItem` | libs/bysant/bysants.c:362-384 | the null token of every context is decoded as null or as the end of the container |
| `BysantRoundTrip.StringItem` | libs/bysant/bysants.c:698-716 | the string encoding chosen by the context is decoded by the routine of that context |
| `BysantRoundTrip.CollectionItem` | libs/bysant/bysantd.c:223-270 | a list or map header opens the matching frame in the reader |
| `BysantRoundTrip.ObjectItem` | libs/bysant/bysantd.c:109-121 | an object header opens a frame with the fields of its class |
| `BysantRoundTrip.ChunkItem` | libs/bysant/bysantd.c:490-507 | a chunk of a chunked string is decoded to its bytes |
| `BysantRoundTrip.ValueStep` | libs/bysant/bysants.c:77-102 | a value: bytes read back as that value, and the relation between the two stacks is kept |
| `BysantRoundTrip.OpenStep` | libs/bysant/bysants.c:312-329 | opening a container: the reader charges it to its parent at once, the writer only when it closes, and the relation between the two stacks absorbs the difference |
| `BysantRoundTrip.CloseStep` | libs/bysant/bysants.c:406-447 | closing a container: a fixed one is closed by the reader without a byte, a variable one by its end marker |
| `BysantRoundTrip.LongStep` | libs/bysant/bysants.c:289-309 | a string too long for one header travels as chunks through an extra frame of the reader and leaves both stacks related |
| `BysantRoundTrip.StepRoundTrip` | libs/bysant/bysantd.c:632-701 | one accepted call: its bytes, whatever follows, read back as exactly its elements with the stacks still related |
| `BysantRoundTrip.RunRoundTrip` | libs/bysant/bysantd.c:632-701 | every run of accepted and readable calls from any related pair of states reads back element for element |
| `BysantRoundTrip.RoundTrip` | libs/bysant/bysantd.c:632-701 | from fresh contexts every accepted run of readable calls reads back as exactly its elements, consumes every byte and returns to top level when all is closed; `BysantStory.TaleExactly` says which elements these are |
| `BysantRoundTrip.Unreadable` | libs/bysant/bysants.c:722-737 | the condition of the round trip is exact: a null in a chunked string and a long string at the last stack level never read back |
| `BysantRoundTrip.RoundTripExactly` | libs/bysant/bysantd.c:632-701 | from fresh contexts an accepted run reads back as its elements if and only if no call is a null in a chunked string or a long string at the last stack level; `BysantStory.TaleExactly` says the same without the two stacks |
| `BysantRoundTrip.NullInChunked` | libs/bysant/bysants.c:722-737 | a chunked opening and a null are both accepted, and do not read back |
| `BysantStory.TaleExactly` | libs/bysant/bysantd.c:632-701 | in terms of the calls alone, with the containers open and how many children each has had: a run is accepted if and only if each call is allowed where it stands, and then its bytes read back, with no byte left over, as the values and containers of the run, each in its place, if and only if no call is one of the two unreadable ones; in a map odd children are keys and even ones values, then list items, object fields, chunks, top level |
| `BysantStory.AcceptedExactly` | libs/bysant/bysants.c:64-75 | the serializer accepts exactly the calls that the open containers allow: room left, a value or opening the context takes, a close when the count is complete |
| `BysantStory.PlaceIs` | libs/bysant/bysantd.c:45-58 | the kind of the next element is told by what is open and the number of children before: in a map a key exactly at odd ones |
| `BysantStory.ToldIs` | libs/bysant/bysantd.c:632-701 | the elements that a call stands for, and whether it can be read back, follow from what is open |
| `BysantStory.OnePair` | libs/bysant/bysantd.c:45-58 | a map of one pair reads back as the map, the string as key, the integer as value, and the end |
| `BysantRoundTrip.TruncatedInteger` | libs/bysant/bysants.c:606-620 | in the unsigned-or-string context an integer reads back modulo 2^32, so as itself exactly below 2^32 |
| `BysantRoundTrip.LongHeaderUnchecked` | libs/bysant/bysantd.c:223-270 | with the length -1, documented as no verification, a list header fails exactly when it is a long one |
| `BysantEncoding.StepKeepsValid` | libs/bysant/bysants.c:77-102 | every accepted call keeps the serializer stack well formed |
| `BysantDecoding.ReadKeepsValid` | libs/bysant/bysantd.c:632-701 | every read keeps the deserializer stack well formed |
| `BysantSizes.StepCounts` | libs/bysant/bysants.c:77-102 | each accepted call keeps declared size = missing + completed children in every open fixed container, and the parity of every map |
| `BysantSizes.NothingIntoFull` | libs/bysant/bysants.c:64-75 | no value and no container is accepted into a full container |
| `BysantSizes.CloseExactly` | libs/bysant/bysants.c:406-447 | a close is accepted exactly when the container has as many children as declared, or, for a variable map, as many values as keys |
| `BysantSizes.RunCounts` | libs/bysant/bysants.c:531-575 | the count holds in every state that a run of accepted calls reaches |
| `BysantSizes.FreshRunCounts` | libs/bysant/bysants.c:64-102 | from a fresh serializer, along every run: declared size is missing plus completed children, nothing enters a full container, and a close is accepted exactly when the container is complete |
| `BysantSerializer.Writer.Write` | libs/bysant/bysants.h:44-67 | a writer takes an arbitrary prefix of what it is given, or fails |
| `BysantSerializer.Serializer.Start` | libs/bysant/bysants.c:64-75 | opening a transaction rolls the stack back to the acknowledged size and refuses a broken or full context |
| `BysantSerializer.Serializer.WriteData` | libs/bysant/bysants.c:105-127 | bytes already written by an interrupted attempt are skipped, the rest goes to the writer |
| `BysantSerializer.Serializer.Commit` | libs/bysant/bysants.c:77-102 | committing acknowledges the written bytes and charges the child to its frame |
| `BysantSerializer.Serializer.WriteInteger` | libs/bysant/bysants.c:162-192 | writes the encoding of an integer, or a prefix of it when interrupted |
| `BysantSerializer.Serializer.WriteUnsigned` | libs/bysant/bysants.c:194-213 | writes the encoding of an unsigned integer, or a prefix of it |
| `BysantSerializer.Serializer.WriteChunk` | libs/bysant/bysants.c:274-287 | writes data as chunks of at most 65535 bytes, or a prefix of that |
| `BysantSerializer.Serializer.WriteString` | libs/bysant/bysants.c:289-309 | writes the encoding of a string, or a prefix of it |
| `BysantSerializer.Serializer.OpenCollection` | libs/bysant/bysants.c:331-360 | writes a collection header and fills the frame being opened |
| `BysantSerializer.Serializer.Int` | libs/bysant/bysants.c:606-638 | one attempt at an integer: refused by the context, committed, or interrupted with a prefix of its bytes pending |
| `BysantSerializer.Serializer.Bool` | libs/bysant/bysants.c:640-645 | one attempt at a boolean |
| `BysantSerializer.Serializer.Null` | libs/bysant/bysants.c:722-737 | one attempt at a null |
| `BysantSerializer.Serializer.LString` | libs/bysant/bysants.c:698-716 | one attempt at a string |
| `BysantSerializer.Serializer.Chunk` | libs/bysant/bysants.c:596-604 | one attempt at a chunk |
| `BysantSerializer.Serializer.Chunked` | libs/bysant/bysants.c:577-594 | one attempt at opening a chunked string |
| `BysantSerializer.Serializer.List` | libs/bysant/bysants.c:555-575 | one attempt at opening a list |
| `BysantSerializer.Serializer.Map` | libs/bysant/bysants.c:531-553 | one attempt at opening a map |
| `BysantSerializer.Serializer.Object` | libs/bysant/bysants.c:449-464 | one attempt at opening an object |
| `BysantSerializer.Serializer.Close` | libs/bysant/bysants.c:406-447 | one attempt at closing a container |
| `BysantRetry.RetryExactly` | libs/bysant/bysants.c:531-594 | an interrupted opening, tried again, is planned as the first time if and only if a condition on its half-filled frame holds |
| `BysantRetry.ChunkedNeverRetries` | libs/bysant/bysants.c:577-594 | an interrupted opening of a chunked string is refused for its context when tried again |
| `BysantRetry.BrokenForever` | libs/bysant/bysants.c:41-125 | once broken the context writes nothing; only the close of a complete fixed container still succeeds |
| `BysantRetry.Retry` | libs/bysant/bysants.c:41-125 | for every behaviour of the writer, a call repeated until it is not interrupted outputs its encoding exactly once, or breaks the context |
| `BysantRetry.SerializeAll` | libs/bysant/bysants.c:41-125 | a whole run over a writer that interrupts it in any way outputs every call once and in order |
| `BysantRetry.Serialize` | libs/bysant/bysants.c:387-404 | from fresh contexts the writer ends up with exactly the bytes of the run |
| `BysantReader.Deserializer.Read` | libs/bysant/bysantd.c:632-701 | one call on the stack in place does what the functional reader does, kinds of elements included (`BysantStory.PlaceIs`), and counts the bytes |
| `BysantReader.Deserializer.ReadElements` | libs/bysant/bysantd.c:632-701 | an application loop over a buffer gives the elements of the functional reader, or stops at the first failure |
| `SdbLossless.QuasiLossless` | libs/bysant/sdb_serialize.c:174-213 | the start value, counts and shifts of a quasi-periodic vector give the column back if and only if no value is taken as on time within the tolerance only |
| `SdbLossless.WholeTimed` | libs/bysant/sdb_serialize.c:195-198 | whole numbers below 10^15 with a whole period are never taken as on time when they are not |
| `SdbLossless.DeltasLossless` | libs/bysant/sdb_serialize.c:97-161 | a deltas vector gives the column back if and only if its factor divides every value, for values below 10^15 |
| `SdbLossless.Gcd` | libs/bysant/sdb_write.c:183-190 | the loop, with the remainder of C, ends in a common divisor that every common divisor divides, zero only of two zeros |
| `SdbLossless.RunningGcdDivides` | libs/bysant/sdb_write.c:201-217 | the running divisor divides every value written, and is zero only if they all are |
| `SdbLossless.RunningGcdGreatest` | libs/bysant/sdb_write.c:201-217 | whatever divides every value written divides the running divisor |
| `SdbLossless.GcdLossless` | libs/bysant/sdb_write.c:201-217 | a column of integers loses nothing as a deltas vector with its running divisor as the factor |
| `SdbMeaning.TableSends` | libs/bysant/sdb_serialize.c:446-507 | a map, and in it every column once, from the first to the last, under its label |
| `SdbMeaning.ListSends` | libs/bysant/sdb_serialize.c:41-81 | a list announces as many cells as there are complete rows, and sends exactly those of its column, in order |
| `SdbMeaning.QuasiSends` | libs/bysant/sdb_serialize.c:174-262 | a quasi-periodic vector sends its period, the first value, before each late value how many were on time, and how many after the last |
| `SdbMeaning.QuasiBackExactly` | libs/bysant/sdb_serialize.c:174-262 | read as an application reads them, the counts and shifts give the numbers of the column back if and only if every value taken as on time is exactly a period after the one before |
| `SdbMeaning.DeltasSends` | libs/bysant/sdb_serialize.c:110-172 | a deltas vector sends its factor, the first value in factors, how many differences follow, and those |
| `SdbMeaning.DeltaSent` | libs/bysant/sdb_serialize.c:137-162 | each difference is against the last value before it whose own difference was not zero, or the first |
| `SdbMeaning.DeltaIntegerIs` | libs/bysant/sdb_serialize.c:97-108 | a quotient from zero up is rounded down after the precision is added; a negative one is always rounded down |
| `SdbMeaning.DeltasBackExactly` | libs/bysant/sdb_serialize.c:110-172 | the differences give the numbers of the column back if and only if the factor divides each of them |
| `SdbSerializer.TableWriter.SerializeList` | libs/bysant/sdb_serialize.c:41-81 | one attempt at a list column, from its start or from the cell where it was interrupted: all its calls are made, or exactly those left remain; after a refused closing it can only answer an internal error |
| `SdbSerializer.TableWriter.SendDelta` | libs/bysant/sdb_serialize.c:137-162 | the cell at hand of a deltas vector, from whichever of its calls was refused |
| `SdbSerializer.TableWriter.SerializeDeltas` | libs/bysant/sdb_serialize.c:110-172 | one attempt at a deltas vector column |
| `SdbSerializer.TableWriter.SendStart` | libs/bysant/sdb_serialize.c:183-193 | the first cell of a quasi-periodic vector |
| `SdbSerializer.TableWriter.SendShift` | libs/bysant/sdb_serialize.c:199-209 | a count and a shift, the count not being sent twice |
| `SdbSerializer.TableWriter.SendQuasi` | libs/bysant/sdb_serialize.c:178-213 | the cell at hand of a quasi-periodic vector |
| `SdbSerializer.TableWriter.SerializeQuasi` | libs/bysant/sdb_serialize.c:215-262 | one attempt at a quasi-periodic column |
| `SdbSerializer.TableWriter.SerializeColumns` | libs/bysant/sdb_serialize.c:459-499 | the loop over the columns, entered at a label or inside a column |
| `SdbSerializer.TableWriter.Serialize` | libs/bysant/sdb_serialize.c:446-507 | one attempt at the table: the calls made and the calls left are always those of an uninterrupted run, which `SdbMeaning` states on the cells; it succeeds only when all are made, and does so if nothing is refused, unless it was stuck |
| `SdbInterrupted.SerializeInterrupted` | libs/bysant/sdb_serialize.c:446-537 | the successful calls are always the beginning of those of an uninterrupted run; if at most k calls are ever refused, k + 1 attempts make all of them if and only if the closing of a list is never refused; `SdbMeaning` states those calls on the cells |
| `SdbInterrupted.StuckExactly` | libs/bysant/sdb_serialize.c:51-81 | the list serializer cannot be taken up again exactly when the call at hand, by its number among the calls of the table, closes a list |
| `SdbInterrupted.ClosingRefused` | libs/bysant/sdb_serialize.c:77-78 | a column with one cell whose fifth call is refused once is an input that is never finished |
| `SdbStore.Store.SetLastSize` | libs/bysant/sdb_write.c:33-74 | the last chunk is resized and keeps what it holds |
| `SdbStore.Store.Write` | libs/bysant/sdb_write.c:117-146 | bytes are appended to the flat contents, or refused from 64 KiB on; every chunk but the last is full size and the last is never filled |
| `SdbStore.CellReader.ReadData` | libs/bysant/sdb_read.c:92-159 | the next cell is returned with its own bytes wherever the chunk boundary falls, if three bytes of it are visible, and an internal error otherwise |
| `SdbStore.StoreAndRead` | libs/bysant/sdb_read.c:92-159 | cells written in sequence are read back in sequence; reading stops early exactly at a cell with fewer than three bytes left in the last chunk |
| `SdbCells.IntegerCell` | libs/bysant/bysantd.c:170-221 | every integer has the property the chunk reader needs: read whatever follows, size known from three bytes |
| `SdbCells.StringCell` | libs/bysant/bysantd.c:272-303 | every string under 64 KiB has the property the chunk reader needs |
| `CdbFormat.UnpackPack` | libs/cdb/uint32_unpack.c:3-16 | unpacking undoes packing, whatever follows |
| `CdbFormat.PackUnpack` | libs/cdb/uint32_pack.c:3-11 | packing undoes unpacking |
| `CdbFormat.HashAddBits` | libs/cdb/cdb_hash.c:5-9 | digit by digit on 32-bit words, the hash step is 33 times the hash, exclusive or the byte |
| `CdbFormat.HashSnoc` | libs/cdb/cdb_hash.c:11-21 | the bytes of a key are added from the first to the last |
| `CdbFormat.HashOfA` | libs/cdb/cdb_hash.c:11-21 | the hash of the key a is 177604 |
| `CdbFormat.ComputeHash` | libs/cdb/cdb_hash.c:11-21 | the loop computes the fold of the hash step over the key; `CdbFormat.HashAddBits` says what the step is |
| `CdbTable.Passed` | libs/cdb/cdb_make.c:133-140 | the slots passed on the way to an entry are held by earlier entries for good, and its own slot by itself |
| `CdbTable.SameStart` | libs/cdb/cdb_make.c:133-140 | entries with the same first slot lie along the probe sequence in the order of insertion |
| `CdbTable.ProbeFindsAll` | libs/cdb/cdb.c:106-127 | a probe sequence up to the first empty slot meets exactly the wanted entries of the bucket, each once, in the order of insertion |
| `CdbTable.RoomFrom` | libs/cdb/cdb_make.c:135-138 | while a table is not full every probe sequence meets an empty slot, so every probe loop ends |
| `CdbFind.Cdb.Read` | libs/cdb/cdb.c:44-68 | a read of the mapped file gives the bytes asked for, or fails when they are not all there |
| `CdbFind.Cdb.MatchKey` | libs/cdb/cdb.c:70-85 | the comparison in blocks of 32 bytes computes its recursive form |
| `CdbFind.Cdb.Next` | libs/cdb/cdb.c:87-130 | one call on the cursor in place does what the functional search does |
| `CdbFind.Cdb.Find` | libs/cdb/cdb.c:132-136 | a search starts the cursor anew |
| `CdbImage.TotalAll` | libs/cdb/cdb_make.c:111-121 | the 256 tables share the entries out: their sizes add up to the number of entries |
| `CdbImage.HeaderAt` | libs/cdb/cdb_make.c:126-128 | the header of the file gives position and length of every table |
| `CdbImage.SlotAt` | libs/cdb/cdb_make.c:142-147 | every slot of every table lies in the file where the header says |
| `CdbImage.RecordAt` | libs/cdb/cdb_make.c:52-71 | every record lies at the position of its entry: lengths, key, data |
| `CdbImage.ImageSize` | libs/cdb/cdb_make.c:22-28 | the size of the file |
| `CdbExample.OneRecordFile` | libs/cdb/cdb_make.c:22-153 | the bytes of the file with the one record a, b: its record, header entry and table |
| `CdbLookup.MatchIs` | libs/cdb/cdb.c:70-85 | comparing by blocks is comparing the whole key |
| `CdbLookup.ProbeAnswers` | libs/cdb/cdb.c:106-127 | the probe loop on the bytes gives the next hit of the table and stops just after it, or answers 0 where none is left; it never fails on a well-formed file |
| `CdbLookup.StageNext` | libs/cdb/cdb.c:87-130 | a call after j answers gives match j with its position, length and data, or 0 when there are no more |
| `CdbLookup.FindsAllInOrder` | libs/cdb/cdb.c:87-130 | for every list of records that fits, successive calls list the records with a key once each in insertion order, then answer 0 for good |
| `CdbLookup.FindsFirst` | libs/cdb/cdb.c:132-136 | a search on the file gives position and length of the first record added with the key, and 0 exactly when no record has it |
| `CdbLookup.Get` | libs/cdb/cdbget.c:43-66 | the data found past a number of answers is that of the corresponding record |
| `CdbMake.Builder.Add` | libs/cdb/cdb_make.c:30-71 | a record is written, entered in the block list and counted; it fails exactly when its end is not a 32-bit position, and the position is then the last of its parts that fits |
| `CdbMake.CountEntries` | libs/cdb/cdb_make.c:85-92 | the counts are the sizes of the buckets |
| `CdbMake.SplitEntries` | libs/cdb/cdb_make.c:111-121 | the backward pass is a stable bucket sort of all entries |
| `CdbMake.FreeSlot` | libs/cdb/cdb_make.c:135-138 | the inner loop ends at the first empty slot |
| `CdbMake.FillTable` | libs/cdb/cdb_make.c:130-140 | the table filled in place is the functional one |
| `CdbMake.Builder.WriteTables` | libs/cdb/cdb_make.c:123-148 | the tables and the header entries come out as specified; it fails exactly when the end is not a 32-bit position |
| `CdbMake.Builder.Finish` | libs/cdb/cdb_make.c:73-153 | the result is the file of the records added, in order; it fails exactly when that file is too large |
| `CdbText.FmtULong` | libs/cdb/fmt_ulong.c:3-13 | the digits written backward are the decimal numeral |
| `CdbText.DumpImage` | libs/cdb/cdbdump.c:61-83 | dumping a finished database lists the added records in order |
| `CdbText.Dump` | libs/cdb/cdbdump.c:21-83 | the reading loop prints the functional dump, or fails on a truncated file |
| `CdbText.DumpParses` | libs/cdb/cdbmake.c:61-103 | the text of a dump parses to the same records |
| `CdbExample.OneRecordText` | libs/cdb/cdbdump.c:61-83 | the bytes of the dump of that file |
| `CdbText.Make` | libs/cdb/cdbmake.c:61-103 | the file made is that of the records in the text; it fails exactly when the text is malformed or the file too large |
| `YajlLex.LexGrows` | libs/yajl/yajl_lex.c:498-643 | a token or an error found in a text is there in every longer text; where the text ran out, reading resumes from the start of the unfinished token as if all the text had been there |
| `YajlLex.TokenGrows` | libs/yajl/yajl_lex.c:542-642 | the same for one token, and an unfinished token never ends before the text so far |
| `YajlTokens.TokenExactly` | libs/yajl/yajl_lex.c:542-642 | a token with its end is found at a place if and only if the grammar has it there: structural characters, literals, strings and numbers of sections 2.2 to 2.5 of RFC 4627, apart from the scan |
| `YajlTokens.NumberScanned` | libs/yajl/yajl_lex.c:370-455 | a number of the grammar, with any sign, fraction and exponent, that ends where it stands is scanned to its end, as a double exactly if it has a fraction or an exponent |
| `YajlTokens.NumberFound` | libs/yajl/yajl_lex.c:370-455 | whatever is scanned as a number is one of the grammar |
| `YajlTokens.CharExactly` | libs/yajl/yajl_lex.c:194-346 | inside a string the lexer steps over exactly one character or escape of the grammar |
| `YajlTokens.CommentExactly` | libs/yajl/yajl_lex.c:457-496 | exactly the comments of the two forms are skipped, to their first end |
| `YajlTokens.SpacesAre` | libs/yajl/yajl_lex.c:538-541 | the spaces are those of RFC 4627, the vertical tab and the form feed |
| `YajlTokens.LexFound` | libs/yajl/yajl_lex.c:498-643 | the next token of a text is what the grammar has after spaces and, where they are allowed, comments |
| `YajlTokens.LexGiven` | libs/yajl/yajl_lex.c:498-643 | after spaces and comments a token of the grammar is the next one |
| `YajlLexer.Lexer.ReadChar` | libs/yajl/yajl_lex.c:96-99 | a character is taken from the buffer before the chunk |
| `YajlLexer.Lexer.UnreadChar` | libs/yajl/yajl_lex.c:101-101 | a character is put back where it came from |
| `YajlLexer.Lexer.Utf8Char` | libs/yajl/yajl_lex.c:194-232 | the continuation bytes of a character, across chunks |
| `YajlLexer.Lexer.SkipPlain` | libs/yajl/yajl_lex.c:254-297 | the fast scan passes over plain characters only |
| `YajlLexer.Lexer.LexString` | libs/yajl/yajl_lex.c:267-366 | a string, across chunks, ends as in the text in one piece |
| `YajlLexer.Lexer.LexNumber` | libs/yajl/yajl_lex.c:370-455 | a number, across chunks, ends as in the text in one piece |
| `YajlLexer.Lexer.LexComment` | libs/yajl/yajl_lex.c:457-496 | a comment, across chunks, ends as in the text in one piece |
| `YajlLexer.Lexer.LexWord` | libs/yajl/yajl_lex.c:542-595 | a literal, across chunks, ends as in the text in one piece |
| `YajlLexer.Lexer.Collect` | libs/yajl/yajl_lex.c:646-663 | the bytes of a token are handed out whole, or kept for the next chunk |
| `YajlLexer.Lexer.Lex` | libs/yajl/yajl_lex.c:498-688 | a call gives the token, end or error that the text fed so far, in one piece, has there |
| `YajlString.StringEncode` | libs/yajl/yajl_encode.c:31-76 | printing runs of plain characters at once gives the escaped form |
| `YajlString.StringDecode` | libs/yajl/yajl_encode.c:116-178 | copying runs without escapes at once gives the unescaped form, whose meaning YajlUnicode states |
| `YajlString.DecodeEncode` | libs/yajl/yajl_encode.c:116-178 | unescaping undoes escaping on every byte string |
| `YajlUnicode.DecodeLax` | libs/yajl/yajl_encode.c:116-180 | decoding gives the code points of a body, lone surrogates written as they are, if and only if every high surrogate is followed directly by a low one |
| `YajlUnicode.DecodeExactly` | libs/yajl/yajl_encode.c:116-180 | decoding gives the meaning of a body in RFC 4627 if and only if every escaped high surrogate is followed directly by an escaped low one and no low one stands alone |
| `YajlUnicode.TokenMeaning` | libs/yajl/yajl_encode.c:116-180 | the same for the string of every string token the lexer finds, in any text |
| `YajlUnicode.Utf32Right` | libs/yajl/yajl_encode.c:90-114 | the shortest UTF-8 character that carries the number is written |
| `YajlUnicode.CharacterLost` | libs/yajl/yajl_encode.c:141-155 | a high surrogate escape and an x: the lexer accepts them and the x is lost |
| `YajlUnicode.EscapeMerged` | libs/yajl/yajl_encode.c:143-151 | a high surrogate escape before the escape of an A gives the one character U+10041 |
| `YajlUnicode.SurrogateWritten` | libs/yajl/yajl_encode.c:157-158 | the escape of a low surrogate alone gives three bytes that carry a surrogate |
| `YajlString.ValidateUtf8` | libs/yajl/yajl_encode.c:182-220 | the loop accepts exactly the sequences of well-formed characters |
| `YajlQuoted.ScanEncoded` | libs/yajl/yajl_encode.c:31-76 | the lexer accepts the escaped form of a string up to its closing quote exactly when it does not validate or the string is UTF-8 |
| `YajlQuoted.QuotedToken` | libs/yajl/yajl_encode.c:182-220 | the quoted escaped form is one string token that stands for the string, exactly when the string is UTF-8 or nothing is validated |
| `YajlNumber.IntegerExact` | libs/yajl/yajl_parser.c:35-62 | over unbounded integers, an integer text is parsed to its value exactly when the magnitude is at most LLONG_MAX |
| `YajlNumber.OverflowExactly` | libs/yajl/yajl_parser.c:32-50 | a product of the loop is above LLONG_MAX exactly when the digits before some digit exceed a tenth of it by at most seven |
| `YajlNumber.InRangeExact` | libs/yajl/yajl_parser.c:44-59 | a text that is parsed to a value is parsed without such a product |
| `YajlNumber.OverflowingText` | libs/yajl/yajl_parser.c:32-50 | the text 9223372036854775810 has such a product |
| `YajlNumber.PrintedParses` | libs/yajl/yajl_gen.c:200-210 | parsing undoes printing for every integer of magnitude at most LLONG_MAX, and the smallest 64-bit integer is out of range |
| `YajlNumber.ScanPrinted` | libs/yajl/yajl_lex.c:370-455 | a printed integer followed by anything that cannot belong to it is one token |
| `YajlParse.ParseGrows` | libs/yajl/yajl_parser.c:185-497 | parsing stops where it can be taken up again as if all the text had been there; once failed, more text changes nothing |
| `YajlParse.FailedForGood` | libs/yajl/yajl_parser.c:215-217 | a failed parser answers an error to everything and calls nobody back |
| `YajlGrammar.TextExactly` | libs/yajl/yajl_parser.c:158-497 | with a client that accepts everything, and without the flags for several values, trailing garbage and partial values, a text is parsed to the end without an error, with given callbacks, if and only if its tokens spell one value of the grammar of RFC 4627, with numbers in range where their values are asked for, and these are the callbacks of that value |
| `YajlGrammar.TokensExactly` | libs/yajl/yajl_parser.c:215-497 | from the start the parser accepts exactly the tokens of one value, and calls back for it in the order of the text |
| `YajlGrammar.TrailingComma` | libs/yajl/yajl_parser.c:333-352 | the text [1,] is refused |
| `YajlParser.IntegerOf` | libs/yajl/yajl_parser.c:35-62 | the loop computes the functional integer parser |
| `YajlParser.Parser.ValueToken` | libs/yajl/yajl_parser.c:218-375 | a token where a value may stand: callbacks, cancellation, overflow, state, as the functional parser has them, whose language `YajlGrammar.TokensExactly` states |
| `YajlParser.Parser.KeyToken` | libs/yajl/yajl_parser.c:376-420 | a token where a key may stand |
| `YajlParser.Parser.HandleToken` | libs/yajl/yajl_parser.c:421-492 | a token in any state that reads one |
| `YajlParser.Parser.DoParse` | libs/yajl/yajl_parser.c:185-497 | after any chunk the state and the callbacks are those of a parser given in one piece all that was fed |
| `YajlParser.Parser.DoFinish` | libs/yajl/yajl_parser.c:158-183 | finishing gives the outcome of the whole text |
| `YajlParser.ParseChunks` | libs/yajl/yajl_parser.c:158-497 | for every split into chunks the callbacks, the fault, the first status that is not ok and the final status depend only on the whole text; `YajlGrammar.TextExactly` says which texts end without an error |
| `YajlGen.Generator.Emit` | libs/yajl/yajl_gen.c:200-338 | any call on the state array in place does what the functional generator does |
| `YajlGen.Generator.InsertWhitespace` | libs/yajl/yajl_gen.c:145-154 | the indentation is the indent string repeated |
| `YajlFormat.EscapeRule` | libs/yajl/yajl_encode.c:42-75 | a byte is escaped with a letter where there is one, else with its hexadecimal digits if it is a control character, else not |
| `YajlFormat.EscapeLetters` | libs/yajl/yajl_encode.c:42-75 | the letters of the escapes |
| `YajlFormat.AtomLayout` | libs/yajl/yajl_gen.c:135-154 | what stands between the text so far and an atom: a comma or colon, a new line and an indent, by where it stands |
| `YajlFormat.OpenLayout` | libs/yajl/yajl_gen.c:288-325 | the same before an opening bracket, which ends its line |
| `YajlFormat.CloseLayout` | libs/yajl/yajl_gen.c:300-338 | a closing bracket stands on its own line, under the line that opened it |
| `YajlMirror.AtomMirrors` | libs/yajl/yajl_gen.c:200-286 | after an atom the parser on the output has given one more callback and stands where the generator does |
| `YajlMirror.OpenMirrors` | libs/yajl/yajl_gen.c:288-325 | the same after an opening, where the parser moves on before the generator does |
| `YajlMirror.CloseMirrors` | libs/yajl/yajl_gen.c:301-338 | the same after a closing that matches what is open |
| `YajlMirror.GenerateMirrors` | libs/yajl/yajl_gen.c:200-338 | every successful call that matches what is open adds exactly its callback to what the parser gives for the output, whatever may follow |
| `YajlMirror.RunMirrors` | libs/yajl/yajl_gen.c:200-338 | for every run of successful calls whose closings match the callbacks for the output are the calls |
| `YajlMirror.CompleteOutcome` | libs/yajl/yajl_gen.c:196-198 | once the generator is complete its output parses to the end without error |
| `YajlTree.Context.Add` | libs/yajl/yajl_tree.c:213-269 | a value becomes the root, a key, a member or an element |
| `YajlTree.Context.On` | libs/yajl/yajl_tree.c:271-398 | a callback does what the functional builder does, or asks to stop |
| `YajlTree.TreeParse` | libs/yajl/yajl_tree.c:403-453 | parsing and building give the functional tree of the text |
| `YajlRoundTrip.BuildTree` | libs/yajl/yajl_tree.c:213-269 | the builder makes of the callbacks of a tree that tree, in any open place |
| `YajlRoundTrip.TreeMirrors` | libs/yajl/yajl_gen.c:200-338 | writing a tree in any place for a value succeeds, and the parser gives the callbacks of the tree |
| `YajlRoundTrip.TreeNoNul` | libs/yajl/yajl_gen.c:200-338 | the output has no zero byte, so the tree parser sees all of it |
| `YajlRoundTrip.TreeRoundTrip` | libs/yajl/yajl_tree.c:403-453 | every tree nested less than the depth limit, with UTF-8 strings, is written plain or beautified without error, and tree-parsing the output gives the tree: values, order, duplicate keys; strings up to a first zero byte |
| `YajlTrailing.LexRunsOut` | libs/yajl/yajl_lex.c:510-516 | in a text that ends with a space the lexer runs out of text exactly when only spaces and comments are left, or a string or a comment without an end |
| `YajlTrailing.TrailingExactly` | libs/yajl/yajl_parser.c:158-214 | after a complete value, finishing succeeds exactly when only spaces and comments follow, or also a string or a comment without an end |
| `YajlTrailing.UnreportedGarbage` | libs/yajl/api/yajl_parse.h:134-141 | a concrete text whose last byte is not consumed finishes without error |
| `YajlRoundTrip.WriteExactly` | libs/yajl/yajl_gen.c:171-175 | writing a tree succeeds exactly when it is not nested too deeply and, if the generator validates, its strings are UTF-8 |
| `YajlSpoiled.StringSpoils` | libs/yajl/yajl_gen.c:245-264 | after a string that is not UTF-8 a validating parser fails whatever follows |
| `YajlSpoiled.MismatchSpoils` | libs/yajl/yajl_gen.c:300-338 | after a closing that does not match what is open, which the generator accepts, a parser fails whatever follows |
| `YajlSpoiled.ArrayClosedAsMap` | libs/yajl/yajl_gen.c:300-338 | an array closed as a map: both calls succeed, the generator is complete, and the text does not parse |
| `YajlSpoiled.RunExactly` | libs/yajl/yajl_gen.c:200-338 | any run of successful calls comes back as its callbacks if and only if every closing matches what is open and every string is one the parser takes; a complete output parses without error under the same condition |
| `YajlSpoiled.RoundTripExactly` | libs/yajl/yajl_tree.c:403-453 | without validation in the generator, a tree comes back if and only if its strings are UTF-8, and otherwise nothing does |
| `YajlIntact.TreeExactly` | libs/yajl/yajl_tree.c:403-453 | a tree is written without error and comes back as it was if and only if it is nested less than the limit, its strings and keys are UTF-8 without a zero byte and its integers are in range |
| `YajlIntact.WholeInjective` | libs/yajl/api/yajl_tree.h:68-98 | different trees have different nodes, so coming back is coming back the same |
| `YajlIntact.StringCut` | libs/yajl/yajl_tree.c:271-290 | a string with a zero byte is written, parsed and cut there |
| `PointerList.List.PushLast` | libs/common/pointer_list.c:91-123 | an element is appended through every growth and wrap-around |
| `PointerList.List.PopFirst` | libs/common/pointer_list.c:125-141 | the first element is taken off, or none is found |
| `PointerList.List.Poke` | libs/common/pointer_list.c:143-154 | one element is replaced, or the index is out of range |
| `PointerList.List.Peek` | libs/common/pointer_list.c:156-169 | one element is given, or the index is out of range |
| `PointerList.List.Remove` | libs/common/pointer_list.c:171-200 | exactly what is left; the deletion if and only if the move does not reach around the end by two elements or more, or the first two there are the same; so the deletion whenever the occupied slots do not wrap |
| `PointerList.RemovalExactly` | libs/common/pointer_list.c:185-195 | what the moving loop leaves is the deletion if and only if the elements moved do not reach around the end by two or more, or the first two there are the same |
| `PointerList.RunList` | libs/common/pointer_list.c:91-200 | in every run that removes nothing after a pop, whatever the first capacity, the list answers as a plain sequence does and holds its elements |
| `PointerList.RemovalLoses` | libs/common/pointer_list.c:185-195 | a list of eight slots, reached by pushes and pops, from which removing the first element loses the last |
| `Sha1.Context.ProcessBlock` | libs/sha1/sha1.c:232-317 | the loops over words and rounds compute the compression function, whose parts `Sha1Standard` pins down |
| `Sha1.Context.Input` | libs/sha1/sha1.c:159-209 | bytes are appended to the message; after a result it is an error, and at 2^64 bits the context is corrupted |
| `Sha1.Context.PadMessage` | libs/sha1/sha1.c:343-389 | padding in one or two blocks finishes the fold over the padded message |
| `Sha1.Context.Result` | libs/sha1/sha1.c:101-137 | the digest of all that was put in, as often as it is asked for |
| `Sha1.DigestParts` | libs/sha1/sha1.c:101-209 | for every split of a message of fewer than 2^64 bits the digest is that of the whole message, as `Sha1Standard.DigestRuns` takes it apart |
| `Words.RotateBit` | libs/sha1/sha1.c:37-38 | rotating a word by n moves every digit n places up, going around |
| `Sha1Standard.MixBit` | libs/sha1/sha1.c:267-308 | digit by digit the three words are mixed by choice, parity, majority, parity, twenty rounds each |
| `Sha1Standard.ConstantRoot` | libs/sha1/sha1.c:234-239 | the constants are the integer parts of 2^30 times the square roots of 2, 3, 5 and 10 |
| `Sha1Standard.RoundMoves` | libs/sha1/sha1.c:267-308 | what a round makes of each of the five words |
| `Sha1Standard.ScheduleFirst` | libs/sha1/sha1.c:248-254 | the first sixteen words are the block, the highest byte first |
| `Sha1Standard.ScheduleBit` | libs/sha1/sha1.c:256-259 | digit by digit a later word is the parity of the words 3, 8, 14 and 16 before, turned by one |
| `Sha1Standard.CompressRuns` | libs/sha1/sha1.c:232-317 | eighty rounds from the hash before, then the sum with it |
| `Sha1Standard.AddWords` | libs/sha1/sha1.c:310-314 | the sum is word by word modulo 2^32 |
| `Sha1Standard.InitBytes` | libs/sha1/sha1.c:59-80 | the starting words are the bytes 01 23 45 67 89 ab cd ef fe dc ba 98 76 54 32 10 f0 e1 d2 c3, the lowest of each word first |
| `Sha1Standard.PaddedIs` | libs/sha1/sha1.c:343-389 | a message is followed by a one digit, the fewest zeros, and its length in digits in eight bytes |
| `Sha1Standard.DigestRuns` | libs/sha1/sha1.c:101-209 | the digest is the hash after all blocks of the padded message, from the starting words |
| `Sha1Standard.DigestBytes` | libs/sha1/sha1.c:101-137 | the twenty bytes are the five words, the highest byte first |
| `AesBox.BoxUndone` | libs/openaes/oaes_lib.c:95-133 | the inverse substitution table undoes the substitution table, at every byte |
| `AesInverse.BoxIs` | libs/openaes/oaes_lib.c:95-113 | every entry of the table is the affine transformation of the inverse of its place in the field, and of zero for zero |
| `AesInverse.InverseIs` | libs/openaes/oaes_lib.c:95-113 | the field product of every byte but zero and what the table transforms for it is one |
| `AesInverse.InverseHalves` | libs/openaes/oaes_lib.c:95-113 | doubling a byte halves what the table transforms for it |
| `AesField.MixUndone` | libs/openaes/oaes_lib.c:406-444 | the inverse column matrix undoes the column matrix over the field with 256 elements |
| `AesBlock.Shift` | libs/openaes/oaes_lib.c:315-341 | the sixteen moves turn row i left by i, in place |
| `AesBlock.EncryptBlock` | libs/openaes/oaes_lib.c:1000-1115 | the loops over rounds compute the cipher on sixteen bytes of a buffer and leave the rest |
| `AesBlock.DecryptBlock` | libs/openaes/oaes_lib.c:1117-1231 | the loops over rounds compute the inverse cipher on sixteen bytes of a buffer and leave the rest |
| `AesCipher.MeetInTheMiddle` | libs/openaes/oaes_lib.c:1176-1213 | between any two rounds the inverse cipher holds the block the cipher held there |
| `AesCipher.BlockBack` | libs/openaes/oaes_lib.c:1000-1231 | the inverse cipher undoes the cipher, for every block and every sequence of round keys |
| `AesStandard.CipherRuns` | libs/openaes/oaes_lib.c:1000-1115 | the cipher is a run of rounds of the four steps, the first key before and the last round without the third step |
| `AesStandard.AddKeyIs` | libs/openaes/oaes_lib.c:1023-1025 | adding a key is exclusive or, digit by digit |
| `AesStandard.ShiftRowsIs` | libs/openaes/oaes_lib.c:315-341 | row r of the block, held by columns, turns left by r |
| `AesStandard.MixColumnIs` | libs/openaes/oaes_lib.c:406-424 | a byte of a mixed column is twice itself, three times the next, and the other two |
| `AesStandard.MixColumnsIs` | libs/openaes/oaes_lib.c:406-424 | every column is mixed in its place |
| `AesKey.RoundConstantIsPower` | libs/openaes/oaes_lib.c:92-93 | the round constants are the powers of x in the field |
| `AesKey.Expand` | libs/openaes/oaes_lib.c:547-604 | the loop gives the word recurrence of the key schedule, for the three key sizes |
| `AesStandard.KeyWordIs` | libs/openaes/oaes_lib.c:563-600 | byte by byte a word of the schedule is the word one key length before and the word before, turned, substituted and given a power of x at the start of a key length, substituted in the middle of one for the longest keys |
| `AesStandard.RoundKeyIs` | libs/openaes/oaes_lib.c:547-604 | there are eleven, thirteen or fifteen round keys, four words each, one after the other |
| `AesMessage.PaddingBack` | libs/openaes/oaes_lib.c:1283-1285 | padding is taken off again |
| `AesMessage.OnlyPadded` | libs/openaes/oaes_lib.c:1407-1426 | only a padded message is accepted as padded |
| `AesMessage.ChainBack` | libs/openaes/oaes_lib.c:1388-1404 | deciphering a chain of blocks undoes enciphering it, chained or not, whatever the IV |
| `AesStandard.ChainIs` | libs/openaes/oaes_lib.c:1277-1299 | a block of a text is the cipher of the message block, combined in chaining with the text block before or the IV |
| `AesStandard.PaddedIs` | libs/openaes/oaes_lib.c:1283-1285 | a message is filled up to whole blocks with 1, 2, 3 and so on |
| `AesStandard.SealedIs` | libs/openaes/oaes_lib.c:1255-1275 | the bytes of the header, then the IV; the next IV is the last block |
| `AesStandard.SealedText` | libs/openaes/oaes_lib.c:1277-1299 | after them stands the chain of the padded message |
| `AesMessage.SealedBack` | libs/openaes/oaes_lib.c:1233-1429 | decryption gives back the message for every key, IV and length if and only if the options are known ones with not both modes; else the header is refused |
| `AesMessage.BarePadText` | libs/openaes/oaes_lib.c:1408-1412 | a header that claims padding and an IV, without a message, meets every check, and the byte before the buffer is read |
| `AesMessage.BarePadExactly` | libs/openaes/oaes_lib.c:1408-1412 | no other text that meets the checks makes decryption read outside the message |
| `AesMessage.SessionBack` | libs/openaes/oaes_lib.c:1297-1298 | every text of a context whose IV runs on from message to message opens on its own to its message |
| `AesContext.ContextBack` | libs/openaes/oaes_lib.c:1233-1429 | for the three key sizes and both modes, a context with the same key reads back every message |
| `AesContext.Context.SetOption` | libs/openaes/oaes_lib.c:936-998 | exactly one mode is ever set; which codes are returned; what happens to the IV |
| `AesContext.Context.ImportKey` | libs/openaes/oaes_lib.c:817-867 | a key of a known size is expanded, any other refused |
| `AesContext.Context.Encrypt` | libs/openaes/oaes_lib.c:1233-1303 | the buffer gets the sealed message and nothing else changes in it; the IV becomes the last cipher block |
| `AesContext.Context.Decrypt` | libs/openaes/oaes_lib.c:1305-1429 | every outcome, in the order of the checks; on success the message is in the buffer; a text whose padding would be read before the buffer is excluded only where the source comes to read it |

## Left out

Bysant:
- Floating point values (`bss_double`, `bsd_float`, `bsd_double`) are raw bytes in the decoder and absent from the serializer.
- Classes defined in the stream (`bss_class`, `decodeClass`): the class table is a fixed map, and the opcodes of a definition are invalid.
- `bss_raw` and the internal class definitions.
- Overflow of the 32-bit counters `written` and `missing` for sizes of 2^30 and more.
- Stale bits shared through the unions of a reused stack slot, beyond those a half-opened frame leaves visible.
- BysantSerializer.Serializer.Close: does not describe a close tried right after an interrupted opening, which the source takes for the half-opened container and which then pops the parent; a caller has to retry the opening.
- BysantReader.Deserializer.Read: an object that opens at the depth limit is answered with the error; the source goes on to write through a null frame there.
- The names of the fields in the output record of the deserializer.

Staging tables:
- The size estimates behind the automatic choice of a method, consolidation, trimming, row limits and file storage.
- Numbers are exact reals: rounding of doubles, and quotients that do not fit in an int, are not modelled; a factor of zero is excluded.
- Failure of allocation; the bits of `next_pow2` are replaced by the function they compute.
- SdbStore.CellReader.ReadData: reads one cell known to stand at the current place; a damaged cell is not modelled.

cdb:
- The branch of `cdb_read` without a map, file descriptors, buffering (`buffer_put.c`) and failure of allocation.

yajl:
- YajlParser.ParseChunks: does not state `bytesConsumed`, because it counts from the beginning of the last chunk.
- YajlNumber.IntegerExact: its out-of-range half does not describe texts whose product overflows (`YajlNumber.OverflowExactly` says which), because signed overflow is undefined.
- YajlParser.IntegerOf: computes on unbounded integers, for the same reason.
- The text of error messages, line counts, and `yajl_lex_peek`.
- Doubles stay texts; which of them overflow is a parameter. `yajl_gen_double` and `yajl_gen_number` are absent.
- YajlGen.Generator.Emit: after the depth limit was exceeded or a closing at depth zero the generator may not be used, because the source then reads outside its state array.
- YajlRoundTrip.TreeRoundTrip: the calls for a tree are those of a client that walks it; that client is not in the repository.
- YajlTree.TreeParse: replays the callbacks after parsing instead of during it; their order and their effect on parsing are the same.
- `yajl_tree_get` and the growth of `yajl_buf`.

AES:
- AesField.MixUndone: the six product tables are modelled by the field products they list.
- AesContext.Context.Decrypt: a text that is a `BarePad` is not described, because the source then reads outside its buffer.
- Random keys and IVs (the IV drawn is a parameter), export of keys, the step callback, and calls with a null buffer that only ask for a size.

SHA-1, AES and the ring buffer:
- Null pointers and failure of allocation.

Not modelled at all: the keystore, the wrappers around SHA-1, the agent's sockets and threads, GPIO, logging, the file system library and the Lua bindings.
